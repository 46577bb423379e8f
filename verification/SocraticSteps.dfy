/** Every step of the service keeps the store invariant. */
module SocraticSteps {
  import opened Prelude
  import opened StateMachine
  import opened Dialogues
  import opened SocraticSpec
  import opened SocraticInvariants

  lemma RecordsAppend(log: seq<Record>, r: Record, id: Id)
    ensures RecordsOf(log + [r], id) == RecordsOf(log, id) + if r.dialogue == id then [r] else []
  {
    assert (log + [r])[..|log|] == log;
  }

  lemma {:induction false} NoneFor(log: seq<Record>, id: Id)
    requires forall i | 0 <= i < |log| :: log[i].dialogue != id
    ensures RecordsOf(log, id) == []
  {
    if log != [] {
      NoneFor(log[..|log| - 1], id);
    }
  }

  /** The log of a dialogue gains exactly the record of the turn, linked to the one before. */
  lemma ReplyChronicle(st: Settings, d: Dialogue, recs: seq<Record>, text: string, dec: Decision, rid: Id)
    requires DialogueOk(st, d) && d.IsOpen() && Sound(st, d, dec)
    requires Chronicle(d, recs)
    ensures var d' := Advance(st, d, text, dec);
      Chronicle(d'.(lastInteraction := Some(rid)), recs + [RecordFor(d', dec.transition, rid)])
  {
    var d' := Advance(st, d, text, dec);
    var r := RecordFor(d', dec.transition, rid);
    AdvanceExchanges(st, d, text, dec);
    TableLaws(Some(d.state), dec.choice.event);
    MeantFacts(d.state, dec.intent);
    RowFacts(d.state, dec.intent, dec.choice.event, dec.transition);
    LinkRecord(d, recs, d', dec.transition, rid);
  }

  lemma LinkRecord(d: Dialogue, recs: seq<Record>, d': Dialogue, t: Transition, rid: Id)
    requires d.IsOpen() && d.resolution == None && Chronicle(d, recs)
    requires d' == d.(state := t.target, resolution := t.resolution, exchanges := d'.exchanges, closed := d'.closed,
                      loopMatched := d'.loopMatched)
    requires 1 <= |d.exchanges| <= |d'.exchanges| <= |d.exchanges| + 1
    requires MessageCount(d'.exchanges) == MessageCount(d.exchanges) + 1
    requires t.kind.Some? && t.target != Abandoned
    requires AnswerBearing(t.kind.value) <==> t.resolution.Some? && PermitsAnswer(t.resolution.value)
    requires t.target == Confirming <==> t.kind == Some(ExitOffer)
    requires t.resolution == Some(ExitedOnRequest) ==> d.state == Confirming
    ensures Chronicle(d'.(lastInteraction := Some(rid)), recs + [RecordFor(d', t, rid)])
  {
    var r := RecordFor(d', t, rid);
    var all := recs + [r];
    var last := recs[|recs| - 1];
    assert Follows(last, r);
    forall i | 0 <= i < |all| - 1 ensures Follows(all[i], all[i + 1]) {
      if i < |recs| - 1 {
        assert all[i] == recs[i] && all[i + 1] == recs[i + 1];
      }
    }
    forall i | 0 <= i < |all| ensures CopiedFrom(all[i], d') {
      if i < |recs| { assert all[i] == recs[i]; }
    }
  }

  lemma OpeningChronicle(d: Dialogue, rid: Id)
    requires |d.exchanges| == 1 && d.exchanges[0].messages == [] && d.state == Awaiting
    requires d.resolution == None && d.lastInteraction == None
    ensures Chronicle(d.(lastInteraction := Some(rid)), [RecordFor(d, START, rid)])
  {
    assert d.exchanges[..0] == [];
    assert MessageCount(d.exchanges) == 0;
  }

  lemma AbandonOk(st: Settings, d: Dialogue, recs: seq<Record>)
    requires DialogueOk(st, d) && d.IsOpen() && Chronicle(d, recs)
    ensures DialogueOk(st, Abandon(d)) && Chronicle(Abandon(d), recs)
  {
  }

  /** Saving a well-formed dialogue together with its record keeps the store well formed. */
  lemma PersistKeeps(st: Settings, s: Store, d: Dialogue, t: Transition)
    requires StoreOk(st, s) && DialogueOk(st, d) && d.id < s.minted
    requires Chronicle(d.(lastInteraction := Some(s.minted)), RecordsOf(s.log, d.id) + [RecordFor(d, t, s.minted)])
    ensures StoreOk(st, Persist(s, d, t))
  {
    var r := RecordFor(d, t, s.minted);
    SavedDialogues(st, s, d, r);
    SavedLog(s.dialogues, s.log, s.minted, r, d.(lastInteraction := Some(r.id)));
    SavedOrder(s.dialogues, s.order, d.id, d.(lastInteraction := Some(r.id)));
  }

  lemma SavedDialogues(st: Settings, s: Store, d: Dialogue, r: Record)
    requires DialoguesOk(st, s.dialogues, s.log, s.minted) && DialogueOk(st, d) && d.id < s.minted && r.dialogue == d.id
    requires Chronicle(d.(lastInteraction := Some(r.id)), RecordsOf(s.log, d.id) + [r])
    ensures DialoguesOk(st, s.dialogues[d.id := d.(lastInteraction := Some(r.id))], s.log + [r], s.minted + 1)
  {
    var saved := d.(lastInteraction := Some(r.id));
    var dialogues := s.dialogues[d.id := saved];
    forall id | id in dialogues
      ensures dialogues[id].id == id && id < s.minted + 1 && DialogueOk(st, dialogues[id])
      ensures Chronicle(dialogues[id], RecordsOf(s.log + [r], id))
    {
      RecordsAppend(s.log, r, id);
      if id != d.id {
        assert RecordsOf(s.log, id) + [] == RecordsOf(s.log, id);
      }
    }
  }

  lemma SavedLog(dialogues: map<Id, Dialogue>, log: seq<Record>, minted: nat, r: Record, d: Dialogue)
    requires LogOk(dialogues, log, minted) && r.id == minted && r.dialogue == d.id
    ensures LogOk(dialogues[d.id := d], log + [r], minted + 1)
  {
  }

  lemma SavedOrder(dialogues: map<Id, Dialogue>, order: seq<Id>, id: Id, d: Dialogue)
    requires OrderOk(dialogues, order)
    ensures OrderOk(dialogues[id := d], if id in dialogues then order else order + [id])
  {
  }

  lemma ReplyKeeps(st: Settings, s: Store, id: Id, user: string, text: string, p: Providers)
    requires st.Valid() && StoreOk(st, s) && ReplyStep(st, s, id, user, text, p).Ok?
    ensures StoreOk(st, ReplyStep(st, s, id, user, text, p).value.0)
  {
    var d, dec := ReplyAdvances(st, s, id, user, text, p);
    DecideSound(st, d, p);
    AdvanceOk(st, d, text, dec);
    ReplyChronicle(st, d, RecordsOf(s.log, id), text, dec, s.minted);
    PersistKeeps(st, s, Advance(st, d, text, dec), dec.transition);
  }

  lemma NoRecordsYet(st: Settings, s: Store)
    requires StoreOk(st, s)
    ensures RecordsOf(s.log, s.minted) == []
  {
    NoneFor(s.log, s.minted);
  }

  lemma MintKeeps(st: Settings, s: Store)
    requires StoreOk(st, s)
    ensures StoreOk(st, s.(minted := s.minted + 1))
  {
  }

  lemma OpeningKeeps(st: Settings, s: Store, d: Dialogue)
    requires StoreOk(st, s) && DialogueOk(st, d) && d.id == s.minted
    requires |d.exchanges| == 1 && d.exchanges[0].messages == [] && d.state == Awaiting && d.lastInteraction == None
    ensures StoreOk(st, Persist(s.(minted := s.minted + 1), d, START))
  {
    MintKeeps(st, s);
    NoRecordsYet(st, s);
    OpeningChronicle(d, s.minted + 1);
    PersistKeeps(st, s.(minted := s.minted + 1), d, START);
  }

  lemma AskKeeps(st: Settings, s: Store, session: string, user: string, question: string, topic: string, p: Providers)
    requires 1 <= st.cap && StoreOk(st, s) && AskStep(st, s, session, user, question, topic, p).Ok?
    ensures StoreOk(st, AskStep(st, s, session, user, question, topic, p).value.0)
  {
    if ModeFor(s.modes, session, user).value.enabled {
      var d := AskOpens(st, s, session, user, question, topic, p);
      OpeningOk(st, s.minted, session, user, question, topic, ResolveContext(p), GenerateGuiding(p).value);
      OpeningKeeps(st, s, d);
    }
  }

  /** A question asked with the mode on stores exactly one new dialogue and its record. */
  lemma AskOpens(st: Settings, s: Store, session: string, user: string, question: string, topic: string, p: Providers)
    returns (d: Dialogue)
    requires AskStep(st, s, session, user, question, topic, p).Ok? && ModeFor(s.modes, session, user).value.enabled
    ensures GenerateGuiding(p).Ok?
    ensures d == OpeningDialogue(st, s.minted, session, user, question, topic, ResolveContext(p),
                                 GenerateGuiding(p).value)
    ensures AskStep(st, s, session, user, question, topic, p).value.0 == Persist(s.(minted := s.minted + 1), d, START)
  {
    d := OpeningDialogue(st, s.minted, session, user, question, topic, ResolveContext(p), GenerateGuiding(p).value);
  }

  /** A reply that is served stores exactly the advanced dialogue and its record. */
  lemma ReplyAdvances(st: Settings, s: Store, id: Id, user: string, text: string, p: Providers)
    returns (d: Dialogue, dec: Decision)
    requires forall k | k in s.dialogues :: s.dialogues[k].exchanges != []
    requires ReplyStep(st, s, id, user, text, p).Ok?
    ensures id in s.dialogues && d == s.dialogues[id] && d.IsOpen()
    ensures p.intent.Ok? && Decide(st, d, p) == Ok(dec) && dec.intent == p.intent.value
    ensures ReplyStep(st, s, id, user, text, p).value.0 == Persist(s, Advance(st, d, text, dec), dec.transition)
  {
    d := s.dialogues[id];
    dec := Decide(st, d, p).value;
  }

  lemma SetModeKeeps(st: Settings, s: Store, session: string, user: string, enabled: bool)
    requires StoreOk(st, s) && SetModeStep(s, session, user, enabled).Ok?
    ensures StoreOk(st, SetModeStep(s, session, user, enabled).value.0)
  {
    var s' := SetModeStep(s, session, user, enabled).value.0;
    forall id | id in s'.dialogues
      ensures s'.dialogues[id].id == id && id < s'.minted && DialogueOk(st, s'.dialogues[id])
      ensures Chronicle(s'.dialogues[id], RecordsOf(s'.log, id))
    {
      if s'.dialogues[id] != s.dialogues[id] {
        AbandonOk(st, s.dialogues[id], RecordsOf(s.log, id));
      }
    }
  }
}
