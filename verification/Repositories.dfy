/**
 The in-memory repositories (packages/uc05/uc05/adapters/memory/repositories.py).  They hand out
 and keep copies; a dialogue, a mode and a record are values here, so a copy is the value itself.
 */
module Repositories {
  import opened Prelude
  import opened Dialogues
  import opened SocraticSpec

  function InSession(byId: map<Id, Dialogue>, order: seq<Id>, session: string): seq<Dialogue> {
    if order == [] then []
    else
      var n := |order| - 1;
      InSession(byId, order[..n], session)
      + if order[n] in byId && byId[order[n]].session == session then [byId[order[n]]] else []
  }

  class DialogueRepository {
    var byId: map<Id, Dialogue>
    var order: seq<Id>

    constructor ()
      ensures byId == map[] && order == []
    {
      byId, order := map[], [];
    }

    method Save(d: Dialogue)
      modifies this
      ensures byId == old(byId)[d.id := d]
      ensures order == if d.id in old(byId) then old(order) else old(order) + [d.id]
    {
      if d.id !in byId {
        order := order + [d.id];
      }
      byId := byId[d.id := d];
    }

    method Get(id: Id) returns (found: Option<Dialogue>)
      ensures found == if id in byId then Some(byId[id]) else None
    {
      found := if id in byId then Some(byId[id]) else None;
    }

    method ForSession(session: string) returns (ds: seq<Dialogue>)
      ensures ds == InSession(byId, order, session)
    {
      ds := [];
      for i := 0 to |order|
        invariant ds == InSession(byId, order[..i], session)
      {
        assert order[..i + 1][..i] == order[..i];
        if order[i] in byId && byId[order[i]].session == session {
          ds := ds + [byId[order[i]]];
        }
      }
      assert order[..|order|] == order;
    }
  }

  class SessionModeRepository {
    var bySession: map<string, ModeState>

    constructor ()
      ensures bySession == map[]
    {
      bySession := map[];
    }

    method GetMode(session: string) returns (found: Option<ModeState>)
      ensures found == if session in bySession then Some(bySession[session]) else None
    {
      found := if session in bySession then Some(bySession[session]) else None;
    }

    method SetMode(session: string, enabled: bool, owner: string) returns (state: ModeState)
      modifies this
      ensures bySession == ModeSet(old(bySession), session, owner, enabled) && state == bySession[session]
    {
      var keeper := owner;
      if session in bySession && bySession[session].owner != "" {
        keeper := bySession[session].owner;
      }
      state := ModeState(enabled, keeper);
      bySession := bySession[session := state];
    }
  }

  class InteractionLogRepository {
    var records: seq<Record>

    constructor ()
      ensures records == []
    {
      records := [];
    }

    method Append(r: Record)
      modifies this
      ensures records == old(records) + [r]
    {
      records := records + [r];
    }
  }

  /** Stands for `uuid.uuid4()`: every identifier is minted once. */
  class IdSource {
    var next: Id

    constructor ()
      ensures next == 0
    {
      next := 0;
    }

    method Mint() returns (id: Id)
      modifies this
      ensures id == old(next) && next == id + 1
    {
      id := next;
      next := next + 1;
    }
  }
}
