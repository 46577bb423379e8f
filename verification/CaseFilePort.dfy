/**
 Which case a record names.  Access is verified for the case the learner asked for, but the file that
 comes back is recorded under its own identifier
 (packages/uc06/uc06/application/case_coaching_service.py, steps 5 to 9 of `ask`).
 */
module CaseFilePort {
  import opened Prelude
  import opened Emission
  import opened CaseCoaching

  /** What the file port returns for each identifier. */
  type Port = string -> Result<CaseFile, ProviderError>

  const NEW := Surface({}, [], [], [], [])

  ghost predicate ServedBy(rs: seq<Request>, port: Port) {
    forall i | 0 <= i < |rs| && rs[i].Question? :: rs[i].env.caseFile == port(rs[i].a.caseFile)
  }

  /** Some question of the record's session and user was granted access to the case the record names. */
  ghost predicate AccessVerified(rs: seq<Request>, rec: Record) {
    exists i | 0 <= i < |rs| :: Verified(rs[i], rec)
  }

  predicate Verified(r: Request, rec: Record) {
    r.Question? && r.a.session == rec.session && r.a.user == rec.user && r.a.caseFile == rec.caseFile
    && r.env.access == Ok(true)
  }

  /** Every genuine file the port returns is the file that was asked for. */
  ghost predicate ReturnsWhatWasAsked(port: Port) {
    forall id | port(id).Ok? && port(id).value.fromPrepAgent :: port(id).value.id == id
  }

  /** A guarded question whose gates are cleared, about the case `id`. */
  function GuardedQuestion(id: string, answer: Result<CaseFile, ProviderError>): Request {
    Question(Asker("s", "u", id),
             Env(false, Ok(Context(true, "")), Ok(OutcomePrediction), NoGuard, Ok(true), answer,
                 Err(Unavailable), Err(Unavailable), "redirect", "library"),
             map[])
  }

  /** One guarded question about `id` on which the port returns the file of another case: the record
      names that other case, access to which was never verified. */
  lemma MisfiledCase(rules: Rules, id: string, file: CaseFile)
    requires file.fromPrepAgent && file.id != id
    ensures var rs := [GuardedQuestion(id, Ok(file))];
      var log := Serve(rules, NEW, rs).log;
      |log| == 1 && log[0].mode == CaseLinkedMode && log[0].caseFile == file.id && !AccessVerified(rs, log[0])
  {
    var r := GuardedQuestion(id, Ok(file));
    var s' := Step(rules, NEW, r).0;
    assert [r][1..] == [] && Serve(rules, s', []) == s';
    assert Serve(rules, NEW, [r]) == s';
    assert s'.log == Redirect(NEW, r.a, file, r.env).0.log;
  }

  /** Over all runs on a port: every case-linked record names a case to which access was verified in its
      session for its user, if and only if the port returns the file asked for. */
  lemma RecordsNameVerifiedCasesIff(rules: Rules, port: Port)
    ensures (forall rs, k | ServedBy(rs, port) && 0 <= k < |Serve(rules, NEW, rs).log|
                            && Serve(rules, NEW, rs).log[k].mode == CaseLinkedMode ::
               AccessVerified(rs, Serve(rules, NEW, rs).log[k]))
       <==> ReturnsWhatWasAsked(port)
  {
    if ReturnsWhatWasAsked(port) {
      forall rs, k | ServedBy(rs, port) && 0 <= k < |Serve(rules, NEW, rs).log|
                     && Serve(rules, NEW, rs).log[k].mode == CaseLinkedMode
        ensures AccessVerified(rs, Serve(rules, NEW, rs).log[k])
      {
        EveryCitationWasLoaded(rules, NEW, rs, k);
        var i :| 0 <= i < |rs| && Justified(rs[i], Serve(rules, NEW, rs).log[k]);
        assert Verified(rs[i], Serve(rules, NEW, rs).log[k]);
      }
    } else {
      var id :| port(id).Ok? && port(id).value.fromPrepAgent && port(id).value.id != id;
      var rs := [GuardedQuestion(id, port(id))];
      MisfiledCase(rules, id, port(id).value);
      assert ServedBy(rs, port);
    }
  }
}
