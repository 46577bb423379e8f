# Coaching components: models and proofs

Dafny models of four coaching components and proofs about them.

* **UC-05, Socratic dialogue.** A persisted dialogue state machine behind a service with three
  stores: dialogues, session modes and the interaction log. `SocraticSpec` says what one request
  does to the store as a function of what every provider returns; `SocraticService` is the service
  as a class over mutable repositories, each method proved to leave exactly the store of the
  specification; the other `Socratic…` modules prove what every sequence of requests keeps.
* **UC-07, learning-gap report.** Counting, grouping by topic, struggle signals, gap assembly, the
  evidence guard, and validation of recommendations: loops over dictionaries, sets and lists, each
  proved against a specification function, and laws of the whole analysis.
* **UC-06, case-linked coaching.** The `[[fact:ID]]` marker scanner and renderer, the disclaimer
  boundary with its fail-closed emitter, and the gate order of the question endpoint.
* **UC-03, citation redaction and framing.** Merging and splicing of citation matches, and the
  registry that keeps an explanation from being framed the same way twice.

Each component ends in modules of laws (`SocraticTurns`, `NormalisationLaws`, `HistoryLaws`, `ReportLaws`,
`RecommendationLaws`, `EmissionLaws`, `CaseCoachingLaws`, `CitationLaws`, `FramingLaws`): they say what one
operation comes to in terms of its inputs alone, without the specification functions it is written with.

`Prelude`, `Ordering` and `Text` hold what the components share: results, sorting under an explicit
order, deduplication, and Python's white space.

## Reading the model

* **Providers are adversarial.** A request carries whatever its classifier, generators, guards and
  context source return, including each kind of error. Nothing is assumed of them.
* **Requests are served one at a time.** A run is any finite sequence of requests by any users.
* **Repositories hand out copies.** `reply` changes its dialogue before the answer generator may
  fail; that a failed turn leaves nothing behind rests on `get` and `save` copying, as the in-memory
  adapters do. Dialogues, modes and records are values here, so a copy is the value itself.
* **Identifiers.** `uuid4()` is a counter, `IdSource`, that never repeats. A dialogue's identifier is
  drawn after its first question has been generated rather than before; nothing observes the
  difference, because nothing is stored until then.
* **Text.** `Flatten` starts after Unicode decomposition and removal of combining marks. The
  stopword list is a parameter. Loop detection and the service are proved for every lawful
  comparison of questions (`TextRules.Lawful`), and `StandardRulesLawful` shows that fingerprints and
  Jaccard similarity over stems are one. Scores are exact reals.
* **Sorting.** Strings are ordered character by character. Findings and topics come out already in
  order (`FindingsAscend`, `GroupingConserves`), so later sorts of the same lists by topic are not
  repeated.
* **Validated records.** The report's signals, evidence and gaps are built as values and then checked in
  the order their validators run (`GapModels`); a failed check is what the constructor raises, and the
  building stages return it as an error.
* **Spans, word sets and rules.** Citation patterns, paraphrase words, prediction rules and stripping
  of model disclaimers are parameters. Of paraphrase words it is used only that the empty text has none.
* **Framing runs.** A run records every answer shown, told to the registry or not. A follow-up is served
  only on a concept of the session that has been answered.

## What the proofs found

* **Mode ownership and the empty user identifier.** An empty recorded owner reads as no owner, so a
  session opened by the user `""` can be taken over and switched off by someone else, whose closing
  loop skips the first user's dialogue: it stays open with the mode off
  (`TakeoverBreaksOwnership`). `OwnershipIff` gives the exact condition on the set of users. The header
  identity adapter refuses blank identifiers (packages/uc05/uc05/adapters/fake/identity.py:31), so `""`
  can reach the service only through another adapter.
* **Similarity threshold zero.** The detector compares only against a best score above zero, so at
  threshold zero unrelated questions do not count as repeats. `Apart` and `RepeatIff` state what
  holds at every legal threshold; above zero it is "similarity reaches the threshold".
* **Order independence of the report** holds exactly when the learner's records that share an
  identifier agree (`OrderIndependenceIff`). Ratings are counted per delivery: their identifiers are
  not deduplicated.
* **Thresholds below one.** A signal then fires on nothing, and the report cannot be built: a negative
  threshold is refused with its signal, a zero with the empty evidence of its gap (`LowThresholdRaises`).
  `NothingRejectedIff` gives the exact condition; `Settings` refuses such thresholds
  (packages/uc07/uc07/application/config.py:52-54).
* **The evidence guard never has anything to reject.** Whatever the thresholds, a gap the guard would
  reject cannot be built by this pipeline in the first place (`GuardHasNothingToReject`).
* **Framings repeat when the registry is not told.** A registry write that fails is swallowed and the
  answer still shown, so a follow-up can get the same framing and even the same text
  (`UnrecordedAnswerRepeats`); a first question on an unreadable registry always gets the analogy.
  `NeverRepeatIff` and `AlwaysNewIff` say exactly which failures can be allowed.
* **Paraphrases are compared before redaction**, so two different generated texts can be shown as the
  same text (`RedactionCanRepeat`). `ShownNewIff` gives the exact condition on what is generated.
* **A record names the file that came back, not the case that was asked for.** Access is verified for the
  requested identifier and the loaded file's own identifier is recorded without comparing the two
  (`MisfiledCase`). `RecordsNameVerifiedCasesIff`: records always name a case to which access was
  verified if and only if the file port returns the file it was asked for.

## Model

| member | source | states |
|---|---|---|
| SocraticOwnership.OwnershipIff | packages/uc05/uc05/application/socratic_service.py:200-266 | over every run of requests by a set of users, each dialogue belongs to the recorded owner of its session's mode and a session with the mode off or unset has no open dialogue, if and only if the set lacks the empty identifier or contains nothing else |
| SocraticOwnership.OwnedThroughout | packages/uc05/uc05/application/socratic_service.py:200-266 | the ownership invariant is kept by every sequence of ask, reply and set_mode from any well-formed owned store |
| SocraticOwnership.TakeoverBreaksOwnership | packages/uc05/uc05/application/socratic_service.py:204-205 | a concrete three-request run after which the mode is off, owned by somebody else, and the anonymous user's dialogue is still open |
| SocraticOwnership.SetModeBySomeoneElse | packages/uc05/uc05/application/socratic_service.py:241-266 | switching off a session with an empty owner hands it to the caller and leaves the open dialogues of all other users as they were |
| SocraticRuns.QuestionsNeverRepeat | packages/uc05/uc05/application/socratic_service.py:426-439 | in every reachable dialogue any two guiding questions are below the similarity threshold (at threshold zero, share no token) and have different stored fingerprints |
| SocraticRuns.RefusedLeaveNoTrace | packages/uc05/uc05/application/socratic_service.py:10-20 | a run ends in the same store as the run without its refused requests, so a retry after a failure at any provider call behaves as if the failed turn had never happened |
| SocraticRuns.ClosedForever | packages/uc05/uc05/application/socratic_service.py:393-399 | once closed, a dialogue and its log records are the same after any further requests by anybody |
| SocraticRuns.StepKeeps | packages/uc05/uc05/application/socratic_service.py:287-600 | every request, served or refused, takes a well-formed store to a well-formed store, for all provider outcomes |
| SocraticRuns.Serve | packages/uc05/uc05/application/socratic_service.py:287-600 | a whole run from a well-formed store ends in a well-formed store |
| SocraticBounds.BoundedDialogue | packages/uc05/uc05/application/socratic_service.py:410-439 | every reachable dialogue has between one exchange and the cap; it takes at most cap substantive replies, whatever other turns are interleaved; taking the cap-th is the same as closing at the cap; while open it has one exchange more than it has taken |
| SocraticBounds.TakenIsSpent | packages/uc05/uc05/application/socratic_service.py:410-456 | replies read as reasoning are exactly what a dialogue spends: later exchanges plus the reply that hit the cap or a loop; off-topic turns, offers, declines and other users' requests cost nothing |
| SocraticLog.AnswersOnlyByPermittedExits | packages/uc05/uc05/domain/state_machine.py:359-373 | over every run a record bears an answer exactly when it carries one of the four permitted resolutions; a record with a resolution is the last of its dialogue, which is closed with it; an exit on request directly follows an offer in the same dialogue |
| SocraticLog.LogConserves | packages/uc05/uc05/application/socratic_service.py:543-564 | a reachable dialogue has one record more than it has learner messages; exchange numbers start at one, rise by at most one and end at the exchanges used; the follow-up links form one chain ending at the dialogue's last interaction |
| SocraticLog.TurnsTellTheTruth | packages/uc05/uc05/application/socratic_service.py:535-541 | over every run a turn carries an answer only with the mode off or under a permitted resolution, and a reasoning chain exactly with a capped answer, retelling the stored dialogue |
| SocraticLog.CappedChainRetells | packages/uc05/uc05/application/reasoning_chain.py:40-65 | the chain of a capped dialogue has one step per exchange in order, question and focus verbatim, each with the learner message that ended the exchange; none is missing |
| SocraticLog.ResponseIsLastMessage | packages/uc05/uc05/domain/models.py:178-184 | in a well-formed exchange the quoted response is simply the last message |
| SocraticTurns.ReplyAnswersIff | packages/uc05/uc05/application/socratic_service.py:393-514 | a served reply gets the direct answer exactly on frustration or on insistence after an offer, the capped answer exactly when the message is reasoning and the cap binds or the new question is not apart from an earlier one, and no answer otherwise |
| SocraticTurns.ReplyLeaves | packages/uc05/uc05/application/socratic_service.py:441-481 | which state and intent exit, cap, resolve, leave an offer pending or keep the dialogue awaiting, and with which resolution |
| SocraticTurns.ReplyOpensIff | packages/uc05/uc05/application/socratic_service.py:441-481 | an exchange is opened exactly when the learner reasons and neither the cap nor a loop intervenes, with the generated question; the message joins the exchange it answers and nothing earlier changes |
| SocraticTurns.ReplyShows | packages/uc05/uc05/application/socratic_service.py:483-541 | which question a turn shows: the new one, the current one again exactly when an offer is declined or a message is off topic, the consolidating one exactly on a conclusion, an offer, or none |
| SocraticTurns.ReplyReports | packages/uc05/uc05/application/socratic_service.py:566-599 | state, resolution, exchange count and interaction of a turn are those of the dialogue stored |
| SocraticTurns.AnsweringIff | packages/uc05/uc05/domain/models.py:144-152 | a message answers the question exactly when it means the same whether or not an offer is pending and is neither off topic nor a request for the answer |
| SocraticTurns.LoopNamesNearest | packages/uc05/uc05/application/socratic_service.py:426-439 | a dialogue capped by a loop names the earliest exchange whose question is most similar to the refused one |
| SocraticTurns.ReplyServedIff | packages/uc05/uc05/application/socratic_service.py:393-514 | a reply is served if and only if the learner may reply, the message is classified and each provider it needs delivers an accepted result |
| SocraticTurns.NotServed | packages/uc05/uc05/application/socratic_service.py:393-403 | why a reply is not allowed: unknown dialogue, somebody else's, closed, or somebody else's session, in that order |
| SocraticTurns.RefusedByProvider | packages/uc05/uc05/application/socratic_service.py:111-155 | a reply the learner may make is refused only in the name of a provider that failed or whose result its guard refused |
| SocraticTurns.AskServedIff | packages/uc05/uc05/application/socratic_service.py:287-346 | a question is served if and only if the session is open to the user and the provider its mode needs delivers |
| SocraticTurns.AskStarts | packages/uc05/uc05/application/socratic_service.py:306-346 | with the mode on a question opens one awaiting dialogue of one exchange under the retrieved or default context |
| SocraticTurns.AskAnswers | packages/uc05/uc05/application/socratic_service.py:348-391 | with the mode off a question is answered directly and nothing is stored |
| SocraticTurns.SetModeChanges | packages/uc05/uc05/application/socratic_service.py:200-239 | who may switch a mode, and that switching touches that session's entry alone, no record and no other dialogue set |
| SocraticTurns.SetModeCloses | packages/uc05/uc05/application/socratic_service.py:241-266 | switching off reports exactly the caller's open dialogues of the session, once each, and abandons exactly those |
| ReasoningChain.BuildReasoningChain | packages/uc05/uc05/application/reasoning_chain.py:40-65 | the loop builds exactly the specified steps, with the connection text chosen by position |
| ReasoningChain.ConnectionsSay | packages/uc05/uc05/application/reasoning_chain.py:22-55 | each step's connection names what its question probed and says exactly one of: the only step, the first, the last, one in between |
| Dialogues.LastAnswering | packages/uc05/uc05/domain/models.py:147-184 | finds the latest answering message, and none exactly when no message answers |
| SocraticInvariants.AdvanceOk | packages/uc05/uc05/application/socratic_service.py:441-481 | a reply that goes through leaves a dialogue with numbered, fingerprinted, pairwise distinct questions, every exchange but the current one answered, and state, resolution and closing in agreement |
| SocraticInvariants.DecideSound | packages/uc05/uc05/application/socratic_service.py:404-439 | whatever the providers return: the cap replaces a substantive event exactly when it binds, a new question is told apart from all earlier ones, and a loop names an existing exchange |
| SocraticInvariants.RowFacts | packages/uc05/uc05/domain/state_machine.py:76-276 | which resolution each closing row records, and that a turn which neither opens an exchange nor closes was no answer |
| SocraticSteps.ReplyKeeps | packages/uc05/uc05/application/socratic_service.py:393-514 | a served reply keeps the whole store well formed, log included |
| SocraticSteps.AskKeeps | packages/uc05/uc05/application/socratic_service.py:287-346 | a served question keeps the whole store well formed, log included |
| SocraticSteps.SetModeKeeps | packages/uc05/uc05/application/socratic_service.py:208-266 | switching the mode keeps the store well formed; abandoned dialogues stay consistent with their records |
| SocraticSteps.ReplyChronicle | packages/uc05/uc05/application/socratic_service.py:543-564 | the record of a turn extends the dialogue's chain of records |
| SocraticSteps.ReplyAdvances | packages/uc05/uc05/application/socratic_service.py:393-514 | a served reply stores exactly the advanced dialogue and its one record |
| SocraticSteps.AskOpens | packages/uc05/uc05/application/socratic_service.py:306-346 | a question with the mode on stores exactly one new dialogue, opened by the generated question, and its record |
| SocraticService.Service.Ask | packages/uc05/uc05/application/socratic_service.py:287-346 | leaves exactly the specified store and turn; on any error the store is as it was |
| SocraticService.Service.AnswerOrOpen | packages/uc05/uc05/application/socratic_service.py:287-387 | with the mode off answers and stores nothing, with it on generates before anything is stored |
| SocraticService.Service.Reply | packages/uc05/uc05/application/socratic_service.py:393-514 | leaves exactly the specified store and turn; on any error the store is as it was |
| SocraticService.Service.TakeReply | packages/uc05/uc05/application/socratic_service.py:393-514 | the reply step by step: ownership, state and mode checks, then decision, then mutation of the copy, then finalisation |
| SocraticService.Service.Deliberate | packages/uc05/uc05/application/socratic_service.py:404-439 | classification, cap, generation and loop detection agree with the specified decision and store nothing |
| SocraticService.Service.Finalise | packages/uc05/uc05/application/socratic_service.py:520-599 | an answer that is due is generated before anything is stored, and only under it is the turn persisted |
| SocraticService.Service.Record | packages/uc05/uc05/application/socratic_service.py:543-564 | saving, appending, linking and saving again leave the dialogue linked to exactly one new record |
| SocraticService.Service.SetMode | packages/uc05/uc05/application/socratic_service.py:208-239 | leaves exactly the specified modes and dialogues and reports exactly the dialogues closed; a refusal changes nothing |
| SocraticService.Service.CloseInFlight | packages/uc05/uc05/application/socratic_service.py:241-266 | closing one by one over a snapshot closes exactly the caller's open dialogues of the session, in insertion order |
| SocraticService.Service.ModeStateFor | packages/uc05/uc05/application/socratic_service.py:200-206 | an unset mode reads as off and unowned; another owner's mode is refused |
| Repositories.DialogueRepository.Save | packages/uc05/uc05/adapters/memory/repositories.py:30-32 | replaces or inserts, keeping insertion order |
| Repositories.DialogueRepository.ForSession | packages/uc05/uc05/adapters/memory/repositories.py:39-45 | lists the session's dialogues in insertion order |
| Repositories.SessionModeRepository.SetMode | packages/uc05/uc05/adapters/memory/repositories.py:67-86 | a non-empty recorded owner is kept, otherwise the caller becomes the owner |
| StateMachine.EveryReplyHasARow | packages/uc05/uc05/domain/state_machine.py:286-353 | in an open state every intent maps to an event with a row, as do the cap and loop events that may replace it |
| StateMachine.TableLaws | packages/uc05/uc05/domain/state_machine.py:76-297 | no row leaves a terminal state; a resolution closes and closing resolves; an answer needs a permitted resolution; exchanges open exactly on generating events; which events end with an answer, and that exactly a declined offer and an off-topic message with none pending pose the question again; an exit on request starts from a pending offer |
| Normalisation.RepeatIff | packages/uc05/uc05/domain/normalisation.py:127-145 | a candidate is a repeat if and only if some earlier question is not told apart from it, and the index reported is the earliest question of maximal similarity |
| Normalisation.IsRepeat | packages/uc05/uc05/domain/normalisation.py:127-145 | the loop's running maximum is the specified match |
| Normalisation.FirstMaxIsFirstArgmax | packages/uc05/uc05/domain/normalisation.py:133-145 | the running maximum is the first argmax and names no index exactly when no score is positive |
| Normalisation.FingerprintIdentifies | packages/uc05/uc05/domain/normalisation.py:110-112 | two texts have the same fingerprint if and only if they have the same content tokens |
| Normalisation.JoinInjective | packages/uc05/uc05/domain/normalisation.py:110-112 | joining clean tokens with the separator is injective |
| Normalisation.TokensClean | packages/uc05/uc05/domain/normalisation.py:101-107 | every content token is a non-empty run of lower-case letters and digits, so none holds the separator |
| Normalisation.JaccardBounds | packages/uc05/uc05/domain/normalisation.py:115-120 | similarity is symmetric, lies in [0,1], and is one exactly on equal token sets |
| Normalisation.StandardRulesLawful | packages/uc05/uc05/domain/normalisation.py:110-124 | fingerprints coincide exactly at similarity one, for every stopword list |
| Normalisation.Stem | packages/uc05/uc05/domain/normalisation.py:86-98 | the loop strips the first strippable suffix of the list and then a trailing e |
| Normalisation.StemIsPrefix | packages/uc05/uc05/domain/normalisation.py:86-98 | a stem is a prefix of its token: the whole of it or at least four characters |
| Normalisation.FlattenCanonical | packages/uc05/uc05/domain/normalisation.py:76-83 | flattened text is words of lower-case letters and digits separated by single blanks, with none at the ends |
| Normalisation.FlattenFixed | packages/uc05/uc05/domain/normalisation.py:76-83 | such text is left alone, so flattening twice is flattening once |
| Normalisation.SplitJoins | packages/uc05/uc05/domain/normalisation.py:101-107 | splitting flattened text loses nothing: joining the words with blanks restores it |
| NormalisationLaws.WordsAreRead | packages/uc05/uc05/domain/normalisation.py:76-107 | for every text, lower-casing, two substitutions, trimming and splitting read exactly the words of one left-to-right pass |
| NormalisationLaws.StemIff | packages/uc05/uc05/domain/normalisation.py:70-98 | a stem is the word without the longest listed suffix that leaves four characters, then without an e ending five or more |
| NormalisationLaws.TokensIff | packages/uc05/uc05/domain/normalisation.py:101-107 | a token belongs to a question if and only if it is the stem of one of its words that is longer than one character and no stopword |
| NormalisationLaws.SimilarityReaches | packages/uc05/uc05/domain/normalisation.py:115-124 | similarity reaches a threshold if and only if the shared tokens are that share of all tokens |
| NormalisationLaws.RepeatAtFourFifths | packages/uc05/uc05/domain/normalisation.py:26-30 | at the default threshold a question repeats another exactly when they share at least four times as many tokens as only one of them has |
| Counting.QualifyingInteractions | packages/uc07/uc07/domain/counting.py:56-79 | one pass keeps the learner's first occurrences in key order and counts duplicates and foreign records |
| Counting.CountingConserves | packages/uc07/uc07/domain/counting.py:56-79 | every delivered record is kept, a duplicate or somebody else's; what is kept is strictly sorted, has distinct identifiers and covers exactly the learner's |
| Counting.OrderIndependenceIff | packages/uc07/uc07/domain/counting.py:51-79 | every reordering gives the same qualifying records if and only if the learner's records that share an identifier agree in every field |
| Counting.CountersIgnoreOrder | packages/uc07/uc07/domain/counting.py:56-79 | the two counters never depend on the order of delivery |
| Counting.RedeliveryOnlyCounts | packages/uc07/uc07/domain/counting.py:56-79 | delivering a record again, anywhere, changes nothing but the number of duplicates discarded |
| Aggregation.AggregateHistory | packages/uc07/uc07/application/aggregation.py:71-107 | the history is the learner's records with one summary per tag, in ascending order of tags |
| Aggregation.GroupByTopic | packages/uc07/uc07/application/aggregation.py:73-75 | the dictionary of lists holds under each tag present exactly its records in order |
| Aggregation.GroupingConserves | packages/uc07/uc07/application/aggregation.py:71-107 | topics are strictly ascending and exactly the tags present, each lists the identifiers of its own interactions, and counts and explain-differently totals add up to those of the whole history |
| HistoryLaws.QualifyingAre | packages/uc07/uc07/domain/counting.py:51-79 | the qualifying records are exactly the learner's first deliveries, by time asked and then by identifier |
| HistoryLaws.SummaryHolds | packages/uc07/uc07/application/aggregation.py:71-107 | which identifiers a topic's summary lists under each heading, and its totals, in terms of the records |
| ReportLaws.SummaryAscends | packages/uc07/uc07/application/aggregation.py:71-107 | every list of identifiers in a summary is strictly ascending |
| Signals.BuildLowRatingIndex | packages/uc07/uc07/application/signals.py:59-95 | the two dictionaries, filled rating by rating and sorted, are the index: per topic the number of thumbs-down ratings by the learner on analysed interactions and their distinct sorted identifiers |
| HistoryLaws.RatingsCounted | packages/uc07/uc07/application/signals.py:59-95 | a topic's count is the number of positions of the learner's thumbs-down ratings on its analysed interactions, its list exactly those interactions in order, and a topic without one has no entry |
| HistoryLaws.SignalsReport | packages/uc07/uc07/application/signals.py:98-142 | a signal is reported exactly when its observed value reaches its threshold, with that value, threshold and evidence |
| HistoryLaws.UnreadRatingsAreSilent | packages/uc07/uc07/application/signals.py:128-142 | ratings that could not be read give no signal, whatever the threshold |
| Signals.DetectStruggles | packages/uc07/uc07/application/signals.py:145-171 | one finding per topic with a fired signal in topic order, or what the first signal that cannot be built raises |
| Signals.FoundIff | packages/uc07/uc07/application/signals.py:98-171 | a topic is found exactly when one of its three observed values reaches its threshold |
| Signals.FindingsAscend | packages/uc07/uc07/application/signals.py:165-171 | findings are strictly ascending by topic |
| GapReport.Analyse | packages/uc07/uc07/application/service.py:133-187 | the stages run in order either raise what the first record that cannot be built raises, or yield the specified report with the count and the reasons of what the guard rejected |
| ReportLaws.ReportIff | packages/uc07/uc07/application/service.py:133-187 | a report that can be built holds a struggle gap exactly for the topics whose explain-differently total, follow-ups or thumbs-down ratings reach their threshold, counted on the qualifying records and the ratings, and an unexplored gap exactly for the areas of a readable profile that no such record is about |
| ReportLaws.ReportOrdered | packages/uc07/uc07/application/report_builder.py:244-262 | struggle gaps first, then unexplored ones, each kind strictly ascending by topic |
| ReportLaws.FaultIff | packages/uc07/uc07/application/service.py:133-187 | a report can be built if and only if every signal and every gap passes its validators |
| GapReport.AssembleReport | packages/uc07/uc07/application/report_builder.py:244-262 | struggle gaps then unexplored gaps are built and guarded, or the first that cannot be built raises |
| GapReport.StruggleGaps | packages/uc07/uc07/application/report_builder.py:64-87 | one gap per finding, evidenced by the sorted union of its signals' identifiers; the first gap that fails its validators raises |
| GapReport.BuildStruggleGap | packages/uc07/uc07/domain/models.py:242-304 | the evidence is validated before the gap that holds it |
| GapReport.UnexploredGaps | packages/uc07/uc07/application/report_builder.py:90-120 | one gap per unexplored area on the basis of zero interactions; the first that fails its validators raises |
| GapReport.EnforceEvidenceIntegrity | packages/uc07/uc07/application/evidence_guard.py:48-67 | keeps in order exactly the gaps without a violation, counts the rest, and collects the sorted distinct reasons of each |
| GapReport.FindViolations | packages/uc07/uc07/application/evidence_guard.py:24-45 | the reasons found are those of the gap's own evidence and then of each signal |
| HistoryLaws.GapEvidenceIs | packages/uc07/uc07/application/report_builder.py:64-87 | a struggle gap's evidence lists in order exactly the identifiers of its signals |
| HistoryLaws.UnexploredIff | packages/uc07/uc07/application/unexplored.py:69-145 | an area is reported if and only if a readable profile holds it and no topic covers it, in ascending order |
| HistoryLaws.BuiltIff | packages/uc07/uc07/domain/models.py:225-304 | what a signal, an evidence and a gap must satisfy to be built, as one condition each |
| HistoryLaws.EvidenceFaults | packages/uc07/uc07/domain/models.py:242-268 | which validator an evidence without empty identifiers fails first |
| HistoryLaws.GapFaults | packages/uc07/uc07/domain/models.py:271-304 | which validator a gap with a topic and signals fails first |
| HistoryLaws.UpheldIff | packages/uc07/uc07/application/evidence_guard.py:48-67 | the guard keeps exactly the sound gaps, as often as they come: right basis, evidence that resolves, signals inside it |
| HistoryLaws.EvidenceReasons | packages/uc07/uc07/application/evidence_guard.py:24-45 | the reasons found in a gap's own evidence, one by one |
| ReportLaws.ReasonsAre | packages/uc07/uc07/application/evidence_guard.py:48-67 | the reasons collected are exactly those of the gaps with a violation |
| HistoryLaws.SignalReasons | packages/uc07/uc07/application/evidence_guard.py:24-45 | a signal reason is found exactly when some signal goes outside the gap or does not resolve |
| GapEvidence.EvidencedPasses | packages/uc07/uc07/application/evidence_guard.py:24-45 | a struggle gap evidenced by the analysed interactions has no violation |
| GapEvidence.UnexploredAreasMembers | packages/uc07/uc07/application/unexplored.py:69-145 | an area reported unexplored is in the profile and carried by no interaction |
| GapEvidence.NothingRejected | packages/uc07/uc07/application/report_builder.py:257-262 | with thresholds of at least one, for every history, feedback and profile, each gap is evidenced by interactions of its own topic, each signal has evidence inside the gap's, and the guard rejects nothing |
| GapEvidence.NothingRaised | packages/uc07/uc07/domain/models.py:225-304 | with thresholds of at least one, every signal and gap passes its own validators: fired, canonical and distinct signals, unique identifiers, signal evidence inside the gap's |
| GapEvidence.GuardHasNothingToReject | packages/uc07/uc07/application/evidence_guard.py:48-67 | whatever the thresholds, if the report can be built then the guard rejects nothing and every reported gap passes its validators |
| GapLaws.NothingRejectedIff | packages/uc07/uc07/domain/models.py:225-304 | for every well-typed input nothing raises and the guard rejects nothing, if and only if all thresholds are at least one |
| GapLaws.LowThresholdRaises | packages/uc07/uc07/domain/models.py:228-252 | an input on which any threshold below one raises, and which validator does |
| GapLaws.ReportIgnoresOrder | packages/uc07/uc07/application/service.py:133-187 | with consistent duplicates, any reordering of interactions and ratings gives the same history, the same report and the same failure |
| GapLaws.LowIndexIgnoresOrder | packages/uc07/uc07/application/signals.py:59-95 | the low-rating index does not depend on the order of the ratings |
| GapLaws.FindingsNeverShrink | packages/uc07/uc07/application/signals.py:145-171 | interactions and ratings delivered after the others never remove a finding, lower an observed value or lose evidence |
| GapLaws.FindingsSurviveInAnyOrder | packages/uc07/uc07/application/signals.py:145-171 | the same for any larger delivery in any order, if the learner's duplicates agree |
| Recommendations.ValidateRecommendations | packages/uc07/uc07/application/recommendations.py:74-172 | the plan lists in ascending order exactly the topics with accepted items, each item once in key order; counters, resolved count and status are those specified; an unreadable source yields an empty, unavailable plan |
| Recommendations.Sift | packages/uc07/uc07/application/recommendations.py:98-143 | the loop accepts per topic exactly what its candidates yield and counts every outcome |
| Recommendations.Ordered | packages/uc07/uc07/application/recommendations.py:149-153 | the items of a topic, each once, in the order of course and lesson |
| Recommendations.AcceptedAreSound | packages/uc07/uc07/application/recommendations.py:101-160 | everything accepted is for a gap topic, its course and lesson are in the catalogue, and no course is proposed that the learner is enrolled in |
| Recommendations.YieldsAreSound | packages/uc07/uc07/application/recommendations.py:101-160 | whatever one candidate yields is sound, for its own topic and course, and a lesson that stands for a course is tagged with the topic |
| Recommendations.EveryCandidateAccounted | packages/uc07/uc07/application/recommendations.py:98-172 | wanted candidates equal rejected plus dropped plus converted plus directly accepted |
| Recommendations.ValidationIgnoresOrder | packages/uc07/uc07/application/recommendations.py:98-172 | neither the counters nor the accepted items depend on the order of the candidates |
| RecommendationLaws.AcceptedIff | packages/uc07/uc07/application/recommendations.py:98-143 | an item is accepted for a topic if and only if a wanted lesson candidate resolves to it, or a wanted candidate for a course the learner takes has it as a lesson tagged with the topic, or a wanted candidate for a course not taken resolves to it |
| RecommendationLaws.JudgeIs | packages/uc07/uc07/application/recommendations.py:98-143 | when a candidate is irrelevant, rejected, dropped or converted, in terms of the catalogue and the enrolments |
| RecommendationLaws.ListedInOrder | packages/uc07/uc07/application/recommendations.py:149-153 | the items of a topic are listed by course and then by lesson |
| RecommendationLaws.PlanCounts | packages/uc07/uc07/application/recommendations.py:145-172 | the number resolved is the number of different items accepted for any topic |
| RecommendationLaws.TallyIs | packages/uc07/uc07/application/recommendations.py:98-143 | each counter is the number of positions of the candidates it stands for |
| FactReferences.MatchFrontIff | packages/uc06/uc06/application/fact_references.py:20 | the matcher accepts at a position exactly a well-formed marker with one to sixty-four identifier characters |
| FactReferences.RenderingLeavesNoMarker | packages/uc06/uc06/application/fact_references.py:35-70 | for every text, however markers are nested, the rendering contains no marker |
| FactReferences.RenderingIsIdempotent | packages/uc06/uc06/application/fact_references.py:35-70 | rendering again changes nothing and finds nothing |
| FactReferences.RenderingIsVerbatim | packages/uc06/uc06/application/fact_references.py:63-70 | the text is the pieces around its markers woven with the markers; its rendering is the same pieces woven with the citations |
| FactReferences.ScanIsComplete | packages/uc06/uc06/application/fact_references.py:35-60 | the pieces around the reported markers contain no marker, so the scan misses none |
| FactReferences.VerifyAndRender | packages/uc06/uc06/application/fact_references.py:35-60 | rejects exactly when some reference is unresolved, naming them; otherwise the identifiers are the first occurrences of in-text then claimed ones |
| FactReferences.RejectedIff | packages/uc06/uc06/application/fact_references.py:73-76 | nothing is unresolved if and only if every identifier in the text or claimed belongs to the case file |
| FactReferences.RejectionNames | packages/uc06/uc06/application/fact_references.py:73-76 | a rejection names exactly the unknown identifiers, ascending and once each |
| FactReferences.CitationNames | packages/uc06/uc06/application/fact_references.py:63-70 | a citation holds its identifier, and two citations are equal only for the same one |
| Emission.PassesIff | packages/uc06/uc06/application/boundary.py:65-89 | a payload passes if and only if it carries the canonical disclaimer exactly and no key, in any letter case, that suppresses it |
| EmissionLaws.RefusedIff | packages/uc06/uc06/application/boundary.py:65-89 | each reason for refusing a payload is reported exactly when it applies; a suppression key counts in any spelling of its letters, the Kelvin sign included |
| EmissionLaws.LostOrAltered | packages/uc06/uc06/application/emitter.py:84-174 | the incident is a lost disclaimer exactly when no text or an empty one stands under the field and no key suppresses it, and an altered one otherwise |
| Emission.HonestPayloadPasses | packages/uc06/uc06/domain/responses.py:45-50 | whatever values a response or status body holds, its own serialisation passes |
| Emission.ResponseEmitter.Emit | packages/uc06/uc06/application/emitter.py:61-174 | for every serializer output the payload returned passes; a failure halts the session, alerts once, records one incident and answers 503; a success changes nothing |
| CaseCoaching.EveryPayloadPasses | packages/uc06/uc06/application/emitter.py:61-82 | every payload that leaves for a question or a status request passes the boundary check |
| CaseCoaching.FailureSilencesSession | packages/uc06/uc06/application/case_coaching_service.py:168-192 | from a question or status answer that fails the boundary check until the session is cleared, it stays halted and no interaction is recorded for it, whatever is requested |
| CaseCoaching.HaltedUntilCleared | packages/uc06/uc06/application/case_coaching_service.py:168-192 | a halted session stays halted and silent over every run that does not clear it |
| CaseCoaching.EveryCitationWasLoaded | packages/uc06/uc06/application/case_coaching_service.py:633-715 | over every run each record is justified by one of its requests: a case-linked record names and cites only the genuine file that request loaded, after access to the case it asked for was granted; a general one cites none |
| CaseFilePort.RecordsNameVerifiedCasesIff | packages/uc06/uc06/application/case_coaching_service.py:246-395 | over all runs on a file port, every case-linked record names a case to which access was verified in its session for its user, if and only if the port returns the file asked for |
| CaseFilePort.MisfiledCase | packages/uc06/uc06/application/case_coaching_service.py:496-565 | one question on which the port returns another case's file: the record names a case to which access was never verified |
| CaseCoaching.CaseContentNeedsAccess | packages/uc06/uc06/application/case_coaching_service.py:192-395 | unless the context is confirmed for this case and access is granted, neither the case file nor case-linked generation can influence the answer or any store |
| CaseCoaching.ShownTextIsClean | packages/uc06/uc06/application/case_coaching_service.py:567-819 | generated text is shown only free of markers and predictions and with citations from the loaded file; otherwise a composed text is shown |
| CaseCoachingLaws.GuardedIgnoresGeneration | packages/uc06/uc06/application/case_coaching_service.py:374-384 | once the classifier, or the in-process rules when it fails, names any guarded class, what the generators return changes neither the answer nor any store |
| CaseCoachingLaws.GuardedIsRedirected | packages/uc06/uc06/application/case_coaching_service.py:374-384 | whatever content a guarded question is served is the composed redirect |
| CaseCoachingLaws.GuardedCites | packages/uc06/uc06/application/case_coaching_service.py:496-565 | a guarded answer cites the first three facts of its file, or all of them if there are fewer |
| CaseCoachingLaws.CaseLinkedContent | packages/uc06/uc06/application/case_coaching_service.py:567-720 | an unguarded question gets the generated text with its markers rendered and its references cited, and a redirect exactly when that text predicts |
| CaseCoachingLaws.GeneralContentIs | packages/uc06/uc06/application/case_coaching_service.py:786-819 | general coaching shows the generated text exactly when it holds something, mentions no fact and predicts nothing, and the library text otherwise |
| CaseCoachingLaws.AnswersIff | packages/uc06/uc06/application/case_coaching_service.py:150-395 | which questions get a case-linked answer, which a general one, and which none |
| CaseCoachingLaws.Refusals | packages/uc06/uc06/application/case_coaching_service.py:168-360 | the code and status of every refusal before a file is used |
| CaseCoachingLaws.GenerationErrors | packages/uc06/uc06/application/case_coaching_service.py:567-660 | how an unusable generation is reported: timeout, outage, or invalid |
| CaseCoachingLaws.AnswersAreRecorded | packages/uc06/uc06/application/case_coaching_service.py:881-940 | exactly the answers are recorded, as answered, and everything served leaves one audit entry that names its outcome |
| CaseCoachingLaws.IncidentsIff | packages/uc06/uc06/application/case_coaching_service.py:246-330 | the incidents of a question are a suspected injection and a denied access, in that order, and none in a halted session |
| CaseCoachingLaws.GeneralIsAudited | packages/uc06/uc06/application/case_coaching_service.py:205-345 | general coaching is audited with the first gate that could not decide: context, access or file |
| CaseCoachingLaws.QuestionIs | packages/uc06/uc06/application/emitter.py:61-174 | a question's payload leaves as it is, or halts the session and is reported once in each channel, on top of what asking left |
| CaseCoachingLaws.StatusIff | packages/uc06/uc06/api/app.py:183-219 | a status is withheld exactly when the session has records and none of them is the user's; otherwise it leaves, or is reported, like any payload |
| CaseCoachingLaws.ClearIs | packages/uc06/uc06/adapters/memory/storage.py:67-69 | clearing lifts that session's halt and changes nothing else |
| CaseCoachingService.Service.Ask | packages/uc06/uc06/application/case_coaching_service.py:150-395 | a halted session is told so and records nothing; otherwise at most one record is appended for the asker, and a case-linked one only behind cleared gates |
| CaseCoachingService.Service.PassGates | packages/uc06/uc06/application/case_coaching_service.py:205-330 | without clearance neither a case-linked record nor a case-linked answer; an incident is recorded exactly when access was checked and denied |
| CaseCoachingService.Service.ReadFile | packages/uc06/uc06/application/case_coaching_service.py:312-395 | an unreadable file degrades to one general record, a foreign one is refused and nothing recorded, and whatever is recorded from a file names and cites that file alone |
| CaseCoachingService.Service.Generate | packages/uc06/uc06/application/case_coaching_service.py:567-720 | recorded exactly when answered, citing the file alone; what is shown carries no marker; each failure has its own code |
| CaseCoachingService.Service.Redirect | packages/uc06/uc06/application/case_coaching_service.py:496-565 | appends exactly one case-linked record citing the file's first facts, at most three, under a text composed here |
| CaseCoachingService.Service.FallBack | packages/uc06/uc06/application/case_coaching_service.py:722-819 | appends exactly one general record citing nothing; the text was composed here or shows no marker and no prediction |
| CaseCoachingService.Service.HandleQuestion | packages/uc06/uc06/api/app.py:165-181 | serving and emitting one question is one step of the surface, and what leaves passes the boundary |
| CaseCoachingService.Service.HandleStatus | packages/uc06/uc06/api/app.py:183-219 | somebody else's session is refused without side effects; any other status answer goes through the same emission as a question |
| CitationGuard.MergeSorted | packages/uc03/uc03/citation_guard.py:84-90 | merging spans sorted by start, the last run growing in place, gives separated runs covering exactly the same positions |
| CitationGuard.SeparatedUnique | packages/uc03/uc03/citation_guard.py:84-90 | separated runs covering the same positions are equal, so the merged list is canonical |
| CitationGuard.Splice | packages/uc03/uc03/citation_guard.py:92-99 | moving a cursor from run to run writes exactly the character-by-character redaction, and the number of runs is the number of violations |
| CitationGuard.RedactedLength | packages/uc03/uc03/citation_guard.py:92-99 | before tidying, the length is that of the text less the covered characters plus one redaction per run |
| CitationGuard.RedactedByCoverage | packages/uc03/uc03/citation_guard.py:78-104 | redaction and violations depend on the covered positions alone |
| CitationGuard.ScrubDependsOnCoverage | packages/uc03/uc03/citation_guard.py:64-104 | the whole outcome is the same for any two lists of matches whose unprotected matches cover the same positions |
| CitationGuard.Scrub | packages/uc03/uc03/citation_guard.py:64-104 | filter, sort, merge, splice and tidy yield the specified text and violations for every list of non-empty matches |
| CitationGuard.CollapseTidies | packages/uc03/uc03/citation_guard.py:100-104 | tidying changes white space only and leaves no two white space characters together |
| CitationGuard.SuspectMembers | packages/uc03/uc03/citation_guard.py:75-82 | for any list of protected spans, the matches kept for redaction are exactly those that no span encloses |
| CitationGuard.Occurrences | packages/uc03/uc03/citation_guard.py:53-61 | every protected span is an occurrence of the phrase in the text |
| CitationLaws.OccurrencesIff | packages/uc03/uc03/citation_guard.py:53-61 | a list of spans is what the scan reports if and only if it is leftmost: occurrences in order without overlap, and every occurrence starts inside one of them |
| CitationLaws.RedactsUnprotected | packages/uc03/uc03/citation_guard.py:64-104 | exactly the matches that no leftmost occurrence of an allowed citation encloses are redacted; a text comes back unchanged with no violation if and only if there is no such match |
| CitationLaws.CitedIsProtected | packages/uc03/uc03/citation_guard.py:53-61 | a match inside the first occurrence of a stripped non-empty allowed citation is protected |
| CitationLaws.VerifiedTextUnchanged | packages/uc03/uc03/citation_guard.py:64-82 | a text whose every match is such a verified citation is returned as it is, with no violation |
| CitationLaws.UnverifiedIsRedacted | packages/uc03/uc03/citation_guard.py:73-82 | a match that no occurrence of an allowed citation encloses is always a violation |
| CitationLaws.RunBecomesBlank | packages/uc03/uc03/citation_guard.py:103 | a run of two or more white space characters becomes one blank and what surrounds it is tidied on its own |
| CitationLaws.TidyIsFixed | packages/uc03/uc03/citation_guard.py:103 | text without such a run is left alone |
| Text.StripIff | packages/uc03/uc03/citation_guard.py:103-104 | what stripping leaves is exactly what stands between white space and neither begins nor ends with any |
| Framing.SelectFraming | packages/uc03/uc03/explanation.py:162-177 | the first unused strategy of the action's preference; the second loop never finds another |
| Framing.SelectionSound | packages/uc03/uc03/explanation.py:129-177 | for every action a selection is unused, and it fails exactly when all six are used |
| FramingLaws.ChosenIff | packages/uc03/uc03/explanation.py:129-177 | a framing is chosen if and only if it is unused and every framing the action ranks higher is used |
| FramingLaws.ParaphraseIff | packages/uc03/uc03/distinctness.py:39-51 | at a positive threshold a text is a paraphrase if and only if it shares that part of all content words with an earlier one |
| FramingLaws.OutcomeIff | packages/uc03/uc03/service.py:462-551 | when a turn is answered, when framings have run out, and when it fails |
| FramingLaws.AnswerIs | packages/uc03/uc03/service.py:505-616 | the framing and text of an answer, and what exactly the registry is told of it |
| FramingRuns.NeverRepeatIff | packages/uc03/uc03/service.py:561-616 | over all runs under a set of allowed failures the framings shown for a session and concept are pairwise distinct, if and only if first questions read and write the registry and follow-ups that read it write it (vacuous where no first question is asked; at a threshold of zero or less follow-ups are never answered) |
| FramingRuns.AlwaysNewIff | packages/uc03/uc03/service.py:505-551 | under exactly the same failures every text is generated below the paraphrase threshold against everything shown before, and every unredacted text shown is too, unless no two texts count as paraphrases |
| FramingRuns.UnrecordedAnswerRepeats | packages/uc03/uc03/service.py:597-616 | a first answer whose registry write fails is followed by the same framing and the very same text |
| FramingRuns.RepeatsIffBlind | packages/uc03/uc03/service.py:573-595 | a turn records a framing twice if and only if it is a first question, generated successfully, on an unreadable but writable registry that holds the analogy |
| FramingRuns.RecordedTwiceIff | packages/uc03/uc03/service.py:561-616 | over every run the recorded framings are pairwise distinct if and only if no turn was such a blind repeat |
| FramingRuns.FramingsRunOut | packages/uc03/uc03/service.py:462-551 | over every run without a blind repeat at most six framings are recorded; a turn that reads the registry is exhausted exactly at six; its answer has an unrecorded framing and is new against every recorded text |
| FramingRuns.FaithfulRun | packages/uc03/uc03/adapters/mocks.py:345-373 | over every run the registry holds exactly the recorded framings and texts, in order |
| FramingRuns.ShownNewIff | packages/uc03/uc03/service.py:505-551 | all runs in which nothing fails and the generator draws from a set show pairwise new texts, if and only if redaction never turns a text that is new against a shown one into a paraphrase of it |
| FramingRuns.RedactionCanRepeat | packages/uc03/uc03/service.py:505-551 | two different generated texts that are each one unverified citation are both answered with the same shown text |
| Framing.QAService.Respond | packages/uc03/uc03/service.py:462-551 | selection, generation, paraphrase rejection, redaction and recording leave exactly the specified registry and outcome |
| Framing.FramingRegistry.RecordFraming | packages/uc03/uc03/adapters/mocks.py:361-374 | adds the framing to the set and the text to the list of its session and concept, and touches no other |

## Left out

- Repository and sink failures: `_finalise` saves, appends and saves again, which is not atomic if a repository fails between; atomicity is claimed for provider failures only.
- Concurrency: interleaved requests, locks, timeouts and cancellation; a provider call is a value or an error.
- Clocks, response identifiers, rating states and log events; a dialogue's closing time is modelled as whether it is set.
- Word lists, prompts, acknowledgement, offer and notice texts, legal texts, and the derivation of a missing topic tag; the topic a request ends up with is an input.
- Unicode decomposition and lower-casing outside ASCII in `flatten`, and Python's floating-point division: scores and thresholds are exact reals.
- Intent phrase matching and the output guards of UC-05: classifier and guard verdicts are arbitrary, which covers them.
- Notices, descriptions, coverage accounting, report fingerprints and JSON in UC-07; the recommendations attached to a gap are modelled apart from it (`Recommendations.AcceptedAreSound` shows that their topic is the gap's).
- Recommendations.Ordered: items of one topic that agree in course and lesson and differ in title come in any order, as they do from a Python set.
- Ratings that cannot be loaded per interaction and the report's own threshold of qualifying interactions: the analysis starts once it is due.
- UC-06 injection patterns, guard classification and composed redirect and library texts: verdicts and texts are inputs; the halt reason and the incident details beyond their kind are not kept.
- UC-03 without a framing registry, or with the citation guard switched off: both are configured here.
- UC-03 authentication, context, authority lookup, question log, depth profiles and the further parts of an answer: only the plain explanation is compared, guarded and recorded here.
- CitationGuard.Scrub: the citation patterns themselves are not modelled; any list of non-empty matches within the text stands for what they find.
- SocraticRuns.QuestionsNeverRepeat: at threshold zero the code promises only what the statement says, a similarity of zero, because a best score of zero never counts as a match.
- UC-01, UC-02, UC-04, UC-08, UC-09, UC-10, HTTP routes, schemas, settings, registries of providers and storage mappings: mostly flat mappings that would add easier members.
