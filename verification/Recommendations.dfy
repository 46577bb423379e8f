/** Resolving and validating recommendations (packages/uc07/uc07/application/recommendations.py). */
module Recommendations {
  import opened Prelude
  import opened Ordering

  datatype Kind = Course | Lesson

  /** An empty title means none; an empty lesson identifier means none. */
  datatype Recommendation = Recommendation(topic: string, kind: Kind, course: string, lesson: string, title: string)

  datatype LessonSummary = LessonSummary(id: string, title: string, topics: seq<string>)

  datatype CourseSummary = CourseSummary(id: string, title: string, lessons: seq<LessonSummary>)

  datatype Enrolment = Enrolment(user: string, course: string)

  datatype Catalogue = Catalogue(
    courses: seq<CourseSummary>, enrolments: seq<Enrolment>, user: string, wanted: set<string>)

  // ----- lookups -----

  /** The catalogue dictionary: a later entry replaces an earlier one of the same identifier. */
  function CourseById(courses: seq<CourseSummary>, id: string): Option<CourseSummary> {
    if courses == [] then None
    else if courses[|courses| - 1].id == id then Some(courses[|courses| - 1])
    else CourseById(courses[..|courses| - 1], id)
  }

  /** The first lesson with the identifier. */
  function LessonById(lessons: seq<LessonSummary>, id: string): Option<LessonSummary> {
    if lessons == [] then None
    else if lessons[0].id == id then Some(lessons[0])
    else LessonById(lessons[1..], id)
  }

  predicate Enrolled(c: Catalogue, course: string) {
    Enrolment(c.user, course) in c.enrolments
  }

  function LessonsForTopic(course: CourseSummary, topic: string): set<Recommendation> {
    set i | 0 <= i < |course.lessons| && topic in course.lessons[i].topics ::
      Recommendation(topic, Lesson, course.id, course.lessons[i].id, course.lessons[i].title)
  }

  function Titled(first: string, second: string): string {
    if first != "" then first else second
  }

  // ----- one candidate -----

  datatype Verdict =
    | Irrelevant | Rejected | DroppedEnrolled
    | Converted(lessons: set<Recommendation>)
    | Direct(item: Recommendation)

  function Judge(c: Catalogue, r: Recommendation): Verdict {
    if r.topic !in c.wanted then Irrelevant
    else match CourseById(c.courses, r.course)
      case None => Rejected
      case Some(course) =>
        if r.kind == Lesson then
          (match LessonById(course.lessons, r.lesson)
           case None => Rejected
           case Some(lesson) =>
             Direct(Recommendation(r.topic, Lesson, course.id, lesson.id, Titled(r.title, lesson.title))))
        else if Enrolled(c, r.course) then
          var lessons := LessonsForTopic(course, r.topic);
          if lessons == {} then DroppedEnrolled else Converted(lessons)
        else Direct(Recommendation(r.topic, Course, course.id, "", Titled(r.title, course.title)))
  }

  function Yield(v: Verdict): set<Recommendation> {
    match v
    case Converted(lessons) => lessons
    case Direct(item) => {item}
    case _ => {}
  }

  /** In the catalogue, and never a course the learner is already enrolled in. */
  ghost predicate Sound(c: Catalogue, r: Recommendation) {
    && r.topic in c.wanted
    && (exists i | 0 <= i < |c.courses| ::
          && c.courses[i].id == r.course
          && (r.kind == Lesson ==>
                exists k | 0 <= k < |c.courses[i].lessons| :: c.courses[i].lessons[k].id == r.lesson))
    && (r.kind == Course ==> !Enrolled(c, r.course) && r.lesson == "")
  }

  lemma {:induction false} CourseByIdFacts(courses: seq<CourseSummary>, id: string)
    ensures CourseById(courses, id).Some? ==>
              CourseById(courses, id).value.id == id
              && exists i | 0 <= i < |courses| :: courses[i] == CourseById(courses, id).value
  {
    if courses != [] {
      var n := |courses| - 1;
      CourseByIdFacts(courses[..n], id);
      assert courses == courses[..n] + [courses[n]];
      if CourseById(courses[..n], id).Some? {
        var i :| 0 <= i < n && courses[..n][i] == CourseById(courses[..n], id).value;
        assert courses[i] == courses[..n][i];
      }
    }
  }

  lemma {:induction false} LessonByIdFacts(lessons: seq<LessonSummary>, id: string)
    ensures LessonById(lessons, id).Some? ==>
              LessonById(lessons, id).value.id == id
              && exists k | 0 <= k < |lessons| :: lessons[k] == LessonById(lessons, id).value
  {
    if lessons != [] && lessons[0].id != id {
      LessonByIdFacts(lessons[1..], id);
      if LessonById(lessons[1..], id).Some? {
        var k :| 0 <= k < |lessons[1..]| && lessons[1..][k] == LessonById(lessons[1..], id).value;
        assert lessons[k + 1] == lessons[1..][k];
      }
    }
  }

  /** A lesson that stands for a course is in that course and tagged with the topic. */
  ghost predicate Tagged(c: Catalogue, x: Recommendation) {
    exists i, k | 0 <= i < |c.courses| && 0 <= k < |c.courses[i].lessons| ::
      c.courses[i].id == x.course && c.courses[i].lessons[k].id == x.lesson && x.topic in c.courses[i].lessons[k].topics
  }

  /** Whatever the candidate, what it yields is sound, for the candidate's own topic and in its course; a
      lesson that stands for a course is tagged with the topic. */
  lemma YieldsAreSound(c: Catalogue, r: Recommendation)
    ensures forall x | x in Yield(Judge(c, r)) :: Sound(c, x) && x.topic == r.topic && x.course == r.course
    ensures forall x | x in Yield(Judge(c, r)) :: r.kind == Course && x.kind == Lesson ==> Tagged(c, x)
  {
    CourseByIdFacts(c.courses, r.course);
    if r.topic in c.wanted && CourseById(c.courses, r.course).Some? {
      var course := CourseById(c.courses, r.course).value;
      var i :| 0 <= i < |c.courses| && c.courses[i] == course;
      LessonByIdFacts(course.lessons, r.lesson);
      forall x | x in Yield(Judge(c, r))
        ensures Sound(c, x) && x.topic == r.topic && x.course == r.course
        ensures r.kind == Course && x.kind == Lesson ==> Tagged(c, x)
      {
        assert c.courses[i].id == x.course;
        if x.kind == Lesson {
          assert exists k | 0 <= k < |course.lessons| :: course.lessons[k].id == x.lesson;
        }
      }
    }
  }

  // ----- all candidates -----

  datatype Tally = Tally(rejected: nat, dropped: nat, converted: nat, direct: nat)

  const ZERO := Tally(0, 0, 0, 0)

  function Count(t: Tally, v: Verdict): Tally {
    match v
    case Irrelevant => t
    case Rejected => t.(rejected := t.rejected + 1)
    case DroppedEnrolled => t.(dropped := t.dropped + 1)
    case Converted(_) => t.(converted := t.converted + 1)
    case Direct(_) => t.(direct := t.direct + 1)
  }

  function TallyOf(c: Catalogue, candidates: seq<Recommendation>): Tally {
    if candidates == [] then ZERO
    else Count(TallyOf(c, candidates[..|candidates| - 1]), Judge(c, candidates[|candidates| - 1]))
  }

  /** Everything accepted for a topic. */
  function Accepted(c: Catalogue, candidates: seq<Recommendation>, topic: string): set<Recommendation> {
    if candidates == [] then {}
    else
      var n := |candidates| - 1;
      Accepted(c, candidates[..n], topic) + if candidates[n].topic == topic then Yield(Judge(c, candidates[n])) else {}
  }

  datatype PlanStatus = PlanAvailable | PlanPartial | PlanUnavailable | PlanEmpty

  /** What is accepted directly is not counted, but every item listed is. */
  datatype Summary = Summary(status: PlanStatus, resolved: nat, rejected: nat, dropped: nat, converted: nat)

  /** The topics with items in ascending order, their items in key order, and the summary. */
  datatype Plan = Plan(topics: seq<string>, items: map<string, seq<Recommendation>>, summary: Summary)

  /** What was read from the course source; no candidates at all when it could not be read. */
  datatype Load = Load(partial: bool, candidates: Option<seq<Recommendation>>)

  ghost predicate Holds(c: Catalogue, accepted: map<string, set<Recommendation>>, candidates: seq<Recommendation>) {
    forall t ::
      && (t in accepted <==> Accepted(c, candidates, t) != {})
      && (t in accepted ==> accepted[t] == Accepted(c, candidates, t))
  }

  method ValidateRecommendations(c: Catalogue, load: Load) returns (plan: Plan)
    ensures load.candidates.None? ==> plan == Plan([], map[], Summary(PlanUnavailable, 0, 0, 0, 0))
    ensures load.candidates.Some? ==>
              && Lists(c, plan, load.candidates.value)
              && var t := TallyOf(c, load.candidates.value);
                 plan.summary == Summary(if load.partial then PlanPartial
                                         else if plan.topics == [] then PlanEmpty else PlanAvailable,
                                         Listed(plan.items, plan.topics),
                                         t.rejected, t.dropped, t.converted)
  {
    if load.candidates.None? {
      return Plan([], map[], Summary(PlanUnavailable, 0, 0, 0, 0));
    }
    var all := load.candidates.value;
    var accepted, rejected, dropped, converted := Sift(c, all);
    var topics := SortedKeys(accepted.Keys);
    forall t ensures t in topics <==> Accepted(c, all, t) != {} { assert t in Elements(topics) <==> t in topics; }
    var items := Arrange(accepted, topics);
    assert AllListed(items, c, all) by {
      forall t | t in items ensures ListsTopic(items[t], Accepted(c, all, t)) { assert t in accepted; }
    }
    forall t | t in topics ensures t in items && items[t] != [] { NotEmptyListed(items, accepted, topics, t); }
    NoItems(items, topics);
    var resolved := Listed(items, topics);
    var status := if load.partial then PlanPartial else if resolved == 0 then PlanEmpty else PlanAvailable;
    plan := Plan(topics, items, Summary(status, resolved, rejected, dropped, converted));
  }

  /** Lists the accepted items topic by topic. */
  method Arrange(accepted: map<string, set<Recommendation>>, topics: seq<string>)
    returns (items: map<string, seq<Recommendation>>)
    requires forall t | t in topics :: t in accepted
    ensures items.Keys == Elements(topics)
    ensures forall t | t in items :: t in accepted && ListsTopic(items[t], accepted[t])
  {
    items := map[];
    ghost var done: seq<string> := [];
    for i := 0 to |topics|
      invariant done == topics[..i] && items.Keys == Elements(done)
      invariant forall t | t in items :: t in accepted && ListsTopic(items[t], accepted[t])
    {
      var ordered := Ordered(accepted[topics[i]]);
      ElementsGrow(done, topics[i]);
      done := done + [topics[i]];
      items := items[topics[i] := ordered];
    }
    assert done == topics;
  }

  lemma NotEmptyListed(items: map<string, seq<Recommendation>>, accepted: map<string, set<Recommendation>>,
                       topics: seq<string>, t: string)
    requires items.Keys == Elements(topics) && t in topics && t in accepted && accepted[t] != {}
    requires forall u | u in items :: u in accepted && ListsTopic(items[u], accepted[u])
    ensures t in items && items[t] != []
  {
    assert t in items.Keys;
    NoElements(items[t]);
  }

  /** Judges the candidates one by one. */
  method Sift(c: Catalogue, all: seq<Recommendation>)
    returns (accepted: map<string, set<Recommendation>>, rejected: nat, dropped: nat, converted: nat)
    ensures Holds(c, accepted, all)
    ensures var t := TallyOf(c, all); rejected == t.rejected && dropped == t.dropped && converted == t.converted
  {
    accepted := map[];
    rejected, dropped, converted := 0, 0, 0;
    for i := 0 to |all|
      invariant var t := TallyOf(c, all[..i]);
        rejected == t.rejected && dropped == t.dropped && converted == t.converted
      invariant Holds(c, accepted, all[..i])
    {
      assert all[..i + 1][..i] == all[..i];
      assert all[..i + 1] == all[..i] + [all[i]];
      var candidate := all[i];
      HoldsNext(c, accepted, all[..i], candidate);
      match Judge(c, candidate)
      case Irrelevant =>
      case Rejected => rejected := rejected + 1;
      case DroppedEnrolled => dropped := dropped + 1;
      case Converted(lessons) =>
        converted := converted + 1;
        accepted := AddAll(accepted, candidate.topic, lessons);
      case Direct(item) =>
        accepted := AddAll(accepted, candidate.topic, {item});
    }
    assert all[..|all|] == all;
  }

  function AddAll(accepted: map<string, set<Recommendation>>, topic: string, items: set<Recommendation>)
    : map<string, set<Recommendation>>
  {
    accepted[topic := (if topic in accepted then accepted[topic] else {}) + items]
  }

  lemma HoldsNext(c: Catalogue, accepted: map<string, set<Recommendation>>, before: seq<Recommendation>,
                  r: Recommendation)
    requires Holds(c, accepted, before)
    ensures var items := Yield(Judge(c, r));
      Holds(c, if items == {} then accepted else AddAll(accepted, r.topic, items), before + [r])
  {
    assert (before + [r])[..|before|] == before;
  }

  // ----- listing what was accepted -----

  /** The plan lists exactly the topics with accepted items, and exactly those items. */
  ghost predicate Lists(c: Catalogue, plan: Plan, candidates: seq<Recommendation>) {
    && Ascending(plan.topics, Before)
    && (forall t :: t in plan.topics <==> Accepted(c, candidates, t) != {})
    && plan.items.Keys == Elements(plan.topics)
    && AllListed(plan.items, c, candidates)
  }

  ghost predicate AllListed(items: map<string, seq<Recommendation>>, c: Catalogue, all: seq<Recommendation>) {
    forall t | t in items :: ListsTopic(items[t], Accepted(c, all, t))
  }

  /** Each item once, in the order of course and lesson; items that share both come in any order. */
  ghost predicate ListsTopic(list: seq<Recommendation>, items: set<Recommendation>) {
    && NoRepeats(list) && Elements(list) == items && |list| == |items|
    && forall i, j | 0 <= i < j < |list| :: !KeyBefore(list[j], list[i])
  }

  /** The sort key within a topic. */
  predicate KeyBefore(a: Recommendation, b: Recommendation) {
    Before(a.course, b.course) || (a.course == b.course && Before(a.lesson, b.lesson))
  }

  lemma KeyNotAfter(a: Recommendation, b: Recommendation, c: Recommendation)
    requires !KeyBefore(b, a) && !KeyBefore(c, b)
    ensures !KeyBefore(c, a)
  {
    NotAfter(a.course, b.course, c.course);
    NotAfter(a.lesson, b.lesson, c.lesson);
    if KeyBefore(c, a) {
      if Before(a.course, b.course) { BeforeTransitive(c.course, a.course, b.course); }
    }
  }

  lemma NotAfter(a: string, b: string, c: string)
    ensures a != b ==> Before(a, b) || Before(b, a)
    ensures b != c ==> Before(b, c) || Before(c, b)
    ensures Before(a, b) && Before(b, c) ==> Before(a, c)
    ensures !(Before(a, c) && Before(c, a)) && !Before(a, a)
    ensures a != c ==> Before(a, c) || Before(c, a)
  {
    BeforeTotal(a, b);
    BeforeTotal(b, c);
    BeforeTotal(a, c);
    BeforeIrreflexive(a);
    if Before(a, b) && Before(b, c) { BeforeTransitive(a, b, c); }
    if Before(a, c) && Before(c, a) { BeforeTransitive(a, c, a); }
  }

  lemma {:induction false} InsertInOrder(x: Recommendation, list: seq<Recommendation>)
    requires forall i, j | 0 <= i < j < |list| :: !KeyBefore(list[j], list[i])
    ensures var all := Insert(x, list, KeyBefore);
      forall i, j | 0 <= i < j < |all| :: !KeyBefore(all[j], all[i])
  {
    if list != [] {
      if KeyBefore(x, list[0]) {
        forall j | 0 <= j < |list| ensures !KeyBefore(list[j], x) {
          NotAfter(x.course, list[0].course, x.course);
          NotAfter(x.lesson, list[0].lesson, x.lesson);
          if j > 0 { KeyNotAfter(x, list[0], list[j]); }
        }
      } else {
        var tail := Insert(x, list[1..], KeyBefore);
        InsertInOrder(x, list[1..]);
        InsertKeeps(x, list[1..], KeyBefore);
        forall j | 0 <= j < |tail| ensures !KeyBefore(tail[j], list[0]) {
          assert tail[j] in multiset(tail);
          assert tail[j] == x || tail[j] in list[1..];
        }
      }
    }
  }

  method Ordered(items: set<Recommendation>) returns (list: seq<Recommendation>)
    ensures ListsTopic(list, items)
  {
    list := [];
    var rest := items;
    while rest != {}
      invariant rest <= items && ListsTopic(list, items - rest)
      decreases rest
    {
      var x :| x in rest;
      InsertInOrder(x, list);
      InsertNew(x, list, KeyBefore);
      assert items - (rest - {x}) == (items - rest) + {x};
      list := Insert(x, list, KeyBefore);
      rest := rest - {x};
    }
    assert items - {} == items;
  }

  lemma InsertNew<T>(x: T, list: seq<T>, lt: (T, T) -> bool)
    requires NoRepeats(list) && x !in Elements(list) && |list| == |Elements(list)|
    ensures var all := Insert(x, list, lt);
      NoRepeats(all) && Elements(all) == Elements(list) + {x} && |all| == |Elements(all)|
  {
    var all, appended := Insert(x, list, lt), list + [x];
    InsertKeeps(x, list, lt);
    assert multiset(appended) == multiset(list) + multiset{x};
    SameBag(all, appended);
    ElementsGrow(list, x);
    RepeatFree(all);
  }

  method SortedKeys(keys: set<string>) returns (list: seq<string>)
    ensures Ascending(list, Before) && Elements(list) == keys
  {
    var some: seq<string> := [];
    var rest := keys;
    while rest != {}
      invariant rest <= keys && Elements(some) == keys - rest
      decreases rest
    {
      var k :| k in rest;
      ElementsGrow(some, k);
      some := some + [k];
      rest := rest - {k};
    }
    SortedSetFacts(some);
    list := SortedSet(some);
  }

  /** How many items are listed under the topics. */
  function Listed(items: map<string, seq<Recommendation>>, topics: seq<string>): nat {
    if topics == [] then 0
    else
      var n := |topics| - 1;
      Listed(items, topics[..n]) + if topics[n] in items then |items[topics[n]]| else 0
  }

  /** Nothing is resolved exactly when no topic is listed. */
  lemma NoItems(items: map<string, seq<Recommendation>>, topics: seq<string>)
    requires forall t | t in topics :: t in items && items[t] != []
    ensures Listed(items, topics) == 0 <==> topics == []
  {
    if topics != [] {
      assert topics[|topics| - 1] in topics;
    }
  }

  // ----- laws -----

  function WantedCount(c: Catalogue, candidates: seq<Recommendation>): nat {
    if candidates == [] then 0
    else
      var n := |candidates| - 1;
      WantedCount(c, candidates[..n]) + if candidates[n].topic in c.wanted then 1 else 0
  }

  /** Every wanted candidate is rejected, dropped, converted or accepted directly. */
  lemma {:induction false} EveryCandidateAccounted(c: Catalogue, candidates: seq<Recommendation>)
    ensures var t := TallyOf(c, candidates);
      t.rejected + t.dropped + t.converted + t.direct == WantedCount(c, candidates)
  {
    if candidates != [] {
      EveryCandidateAccounted(c, candidates[..|candidates| - 1]);
    }
  }

  lemma {:induction false} AcceptedMembers(c: Catalogue, candidates: seq<Recommendation>, topic: string)
    ensures forall x :: x in Accepted(c, candidates, topic)
                   <==> exists r | r in candidates :: r.topic == topic && x in Yield(Judge(c, r))
  {
    if candidates != [] {
      var n := |candidates| - 1;
      AcceptedMembers(c, candidates[..n], topic);
      assert candidates == candidates[..n] + [candidates[n]];
      forall x ensures x in Accepted(c, candidates, topic)
                  <==> exists r | r in candidates :: r.topic == topic && x in Yield(Judge(c, r))
      {
        if r :| r in candidates && r.topic == topic && x in Yield(Judge(c, r)) {
          assert r in candidates[..n] || r == candidates[n];
        }
        if candidates[n].topic == topic && x in Yield(Judge(c, candidates[n])) {
          assert candidates[n] in candidates;
        }
      }
    }
  }

  /** Every recommendation accepted for a topic is for that topic, a gap topic, and resolves in the
      catalogue; none proposes a course the learner is enrolled in. */
  lemma AcceptedAreSound(c: Catalogue, candidates: seq<Recommendation>, topic: string)
    ensures forall x | x in Accepted(c, candidates, topic) :: Sound(c, x) && x.topic == topic
  {
    AcceptedMembers(c, candidates, topic);
    forall x | x in Accepted(c, candidates, topic) ensures Sound(c, x) && x.topic == topic {
      var r :| r in candidates && r.topic == topic && x in Yield(Judge(c, r));
      YieldsAreSound(c, r);
    }
  }

  lemma {:induction false} TallyWithout(c: Catalogue, ys: seq<Recommendation>, j: nat)
    requires j < |ys|
    ensures TallyOf(c, ys) == Count(TallyOf(c, Without(ys, j)), Judge(c, ys[j]))
    decreases |ys|
  {
    var n := |ys| - 1;
    var rest := Without(ys, j);
    if j == n {
      assert rest == ys[..n];
    } else {
      TallyWithout(c, ys[..n], j);
      assert rest[..|rest| - 1] == Without(ys[..n], j) && rest[|rest| - 1] == ys[n];
      CountCommutes(TallyOf(c, rest[..|rest| - 1]), Judge(c, ys[j]), Judge(c, ys[n]));
    }
  }

  lemma CountCommutes(t: Tally, a: Verdict, b: Verdict)
    ensures Count(Count(t, a), b) == Count(Count(t, b), a)
  {
  }

  lemma {:induction false} TallyPermutes(c: Catalogue, xs: seq<Recommendation>, ys: seq<Recommendation>)
    requires multiset(xs) == multiset(ys)
    ensures TallyOf(c, xs) == TallyOf(c, ys)
    decreases |xs|
  {
    SameBag(xs, ys);
    if xs != [] {
      var j := TakeLast(xs, ys);
      TallyPermutes(c, xs[..|xs| - 1], Without(ys, j));
      TallyWithout(c, ys, j);
    }
  }

  /** Neither the counters nor what is accepted depends on the order of the candidates. */
  lemma ValidationIgnoresOrder(c: Catalogue, xs: seq<Recommendation>, ys: seq<Recommendation>, topic: string)
    requires multiset(xs) == multiset(ys)
    ensures TallyOf(c, xs) == TallyOf(c, ys) && Accepted(c, xs, topic) == Accepted(c, ys, topic)
  {
    TallyPermutes(c, xs, ys);
    SameBag(xs, ys);
    AcceptedMembers(c, xs, topic);
    AcceptedMembers(c, ys, topic);
  }
}
