/** The dialogue aggregate and the interaction log record (packages/uc05/uc05/domain/models.py). */
module Dialogues {
  import opened Prelude
  import opened StateMachine

  type Id = nat

  datatype NaricLevel = Level3 | Level4 | Level5 | Level6 | Level7 | Level7Plus

  datatype SourceStatus = Available | EmptySource | Partial | Unavailable | Invalid

  datatype LearnerContext = LearnerContext(
    level: NaricLevel, levelRetrieved: bool, practiceArea: Option<string>, sources: map<string, SourceStatus>)

  datatype Message = Message(text: string, intent: Intent)

  datatype Exchange = Exchange(
    number: nat, question: string, focus: string, fingerprint: string, messages: seq<Message>)

  datatype Dialogue = Dialogue(
    id: Id, session: string, user: string, question: string, topic: string, context: LearnerContext,
    state: State, resolution: Option<Resolution>, cap: nat, exchanges: seq<Exchange>, closed: bool,
    lastInteraction: Option<Id>, loopMatched: Option<nat>)
  {
    predicate IsOpen() {
      state == Awaiting || state == Confirming
    }

    function Questions(): (q: seq<string>)
      ensures |q| == |exchanges|
    {
      seq(|exchanges|, i requires 0 <= i < |exchanges| => exchanges[i].question)
    }
  }

  datatype Record = Record(
    id: Id, session: string, user: string, question: string, topic: string, level: NaricLevel,
    dialogue: Id, exchangeNumber: nat, kind: ResponseKind, resolution: Option<Resolution>,
    followUpOf: Option<Id>)

  datatype ModeState = ModeState(enabled: bool, owner: string)

  /** Intents by which a learner answers, as opposed to negotiating about the dialogue. */
  predicate Answering(i: Intent) {
    i in {Substantive, CasualDifficulty, Conclusion, Frustration}
  }

  /** The latest answering message, or failing that the latest message. */
  function LearnerResponse(e: Exchange): Option<string> {
    var i := LastAnswering(e.messages);
    if i.Some? then Some(e.messages[i.value].text)
    else if e.messages != [] then Some(e.messages[|e.messages| - 1].text)
    else None
  }

  function LastAnswering(messages: seq<Message>): (i: Option<nat>)
    ensures i.Some? ==> i.value < |messages| && Answering(messages[i.value].intent)
    ensures forall k | (if i.Some? then i.value + 1 else 0) <= k < |messages| :: !Answering(messages[k].intent)
  {
    if messages == [] then None
    else if Answering(messages[|messages| - 1].intent) then Some(|messages| - 1)
    else LastAnswering(messages[..|messages| - 1])
  }

  /** Learner messages received over a whole dialogue. */
  function MessageCount(exchanges: seq<Exchange>): nat {
    if exchanges == [] then 0
    else MessageCount(exchanges[..|exchanges| - 1]) + |exchanges[|exchanges| - 1].messages|
  }
}
