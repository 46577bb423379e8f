/**
 Which recommendations are accepted and how each candidate is counted, said of the catalogue, the
 enrolments and the candidates themselves.
 */
module RecommendationLaws {
  import opened Prelude
  import opened Ordering
  import opened Recommendations

  predicate LastAt(courses: seq<CourseSummary>, i: int, id: string) {
    0 <= i < |courses| && courses[i].id == id && forall j | i < j < |courses| :: courses[j].id != id
  }

  predicate FirstAt(lessons: seq<LessonSummary>, k: int, id: string) {
    0 <= k < |lessons| && lessons[k].id == id && forall j | 0 <= j < k :: lessons[j].id != id
  }

  /** The catalogue entry of that identifier; of several, the last. */
  ghost predicate Offers(c: Catalogue, id: string, course: CourseSummary) {
    exists i :: LastAt(c.courses, i, id) && c.courses[i] == course
  }

  /** The lesson of that identifier in the course; of several, the first. */
  ghost predicate Contains(course: CourseSummary, id: string, lesson: LessonSummary) {
    exists k :: FirstAt(course.lessons, k, id) && course.lessons[k] == lesson
  }

  ghost predicate Takes(c: Catalogue, id: string) {
    exists e | e in c.enrolments :: e.user == c.user && e.course == id
  }

  /** The course has a lesson tagged with the topic. */
  ghost predicate Teaches(course: CourseSummary, topic: string) {
    exists k | 0 <= k < |course.lessons| :: topic in course.lessons[k].topics
  }

  /** A wanted lesson candidate that resolves to `x`, under its own title or the lesson's. */
  ghost predicate ProposesLesson(c: Catalogue, r: Recommendation, x: Recommendation) {
    r.topic in c.wanted && r.kind == Lesson && exists course, lesson ::
      Offers(c, r.course, course) && Contains(course, r.lesson, lesson)
      && x == Recommendation(r.topic, Lesson, r.course, r.lesson, if r.title != "" then r.title else lesson.title)
  }

  /** A wanted candidate for a course the learner takes: its lessons tagged with the topic instead. */
  ghost predicate ProposesLessonsOf(c: Catalogue, r: Recommendation, x: Recommendation) {
    r.topic in c.wanted && r.kind == Course && Takes(c, r.course) && exists course, k ::
      Offers(c, r.course, course) && 0 <= k < |course.lessons| && r.topic in course.lessons[k].topics
      && x == Recommendation(r.topic, Lesson, r.course, course.lessons[k].id, course.lessons[k].title)
  }

  /** A wanted candidate for a course the learner does not take. */
  ghost predicate ProposesCourse(c: Catalogue, r: Recommendation, x: Recommendation) {
    r.topic in c.wanted && r.kind == Course && !Takes(c, r.course) && exists course ::
      Offers(c, r.course, course)
      && x == Recommendation(r.topic, Course, r.course, "", if r.title != "" then r.title else course.title)
  }

  lemma {:induction false} CourseByIdIs(courses: seq<CourseSummary>, id: string)
    ensures CourseById(courses, id).Some? ==>
              exists i :: LastAt(courses, i, id) && courses[i] == CourseById(courses, id).value
    ensures CourseById(courses, id).None? ==> forall j | 0 <= j < |courses| :: courses[j].id != id
  {
    if courses != [] {
      var n := |courses| - 1;
      var before := courses[..n];
      assert forall j | 0 <= j < n :: before[j] == courses[j];
      CourseByIdIs(before, id);
      if courses[n].id == id {
        assert LastAt(courses, n, id);
      } else if CourseById(before, id).Some? {
        var i :| LastAt(before, i, id) && before[i] == CourseById(before, id).value;
        assert LastAt(courses, i, id);
      }
    }
  }

  lemma {:induction false} LessonByIdIs(lessons: seq<LessonSummary>, id: string)
    ensures LessonById(lessons, id).Some? ==>
              exists k :: FirstAt(lessons, k, id) && lessons[k] == LessonById(lessons, id).value
    ensures LessonById(lessons, id).None? ==> forall j | 0 <= j < |lessons| :: lessons[j].id != id
  {
    if lessons != [] {
      var rest := lessons[1..];
      assert forall j | 0 <= j < |rest| :: rest[j] == lessons[j + 1];
      assert forall j | 0 < j < |lessons| :: lessons[j] == rest[j - 1];
      LessonByIdIs(rest, id);
      if lessons[0].id == id {
        assert FirstAt(lessons, 0, id);
      } else if LessonById(rest, id).Some? {
        var k :| FirstAt(rest, k, id) && rest[k] == LessonById(rest, id).value;
        forall j | 0 <= j < k + 1 ensures lessons[j].id != id {
          if j > 0 { assert lessons[j] == rest[j - 1]; }
        }
        assert FirstAt(lessons, k + 1, id);
      }
    }
  }

  /** The lookups find exactly what the catalogue offers and the course contains. */
  lemma OffersIff(c: Catalogue, id: string, course: CourseSummary)
    ensures Offers(c, id, course) <==> CourseById(c.courses, id) == Some(course)
  {
    CourseByIdIs(c.courses, id);
    if i :| LastAt(c.courses, i, id) && c.courses[i] == course {
      var k :| LastAt(c.courses, k, id) && c.courses[k] == CourseById(c.courses, id).value;
      assert i == k;
    }
  }

  lemma ContainsIff(course: CourseSummary, id: string, lesson: LessonSummary)
    ensures Contains(course, id, lesson) <==> LessonById(course.lessons, id) == Some(lesson)
  {
    LessonByIdIs(course.lessons, id);
    if i :| FirstAt(course.lessons, i, id) && course.lessons[i] == lesson {
      var k :| FirstAt(course.lessons, k, id) && course.lessons[k] == LessonById(course.lessons, id).value;
      assert i == k;
    }
  }

  lemma TakesIff(c: Catalogue, id: string)
    ensures Enrolled(c, id) <==> Takes(c, id)
  {
    if e :| e in c.enrolments && e.user == c.user && e.course == id {
      assert e == Enrolment(c.user, id);
    }
  }

  lemma LessonsAre(course: CourseSummary, topic: string, x: Recommendation)
    ensures x in LessonsForTopic(course, topic) <==>
      exists k | 0 <= k < |course.lessons| :: topic in course.lessons[k].topics
        && x == Recommendation(topic, Lesson, course.id, course.lessons[k].id, course.lessons[k].title)
    ensures LessonsForTopic(course, topic) == {} <==> !Teaches(course, topic)
  {
    if k :| 0 <= k < |course.lessons| && topic in course.lessons[k].topics {
      assert Recommendation(topic, Lesson, course.id, course.lessons[k].id, course.lessons[k].title)
          in LessonsForTopic(course, topic);
    }
    if y :| y in LessonsForTopic(course, topic) {
      var k :| 0 <= k < |course.lessons| && topic in course.lessons[k].topics
               && y == Recommendation(topic, Lesson, course.id, course.lessons[k].id, course.lessons[k].title);
    }
  }

  lemma LessonProposals(c: Catalogue, r: Recommendation, x: Recommendation)
    requires r.topic in c.wanted && r.kind == Lesson
    ensures x in Yield(Judge(c, r)) <==> ProposesLesson(c, r, x)
  {
    forall course ensures Offers(c, r.course, course) <==> CourseById(c.courses, r.course) == Some(course) {
      OffersIff(c, r.course, course);
    }
    if CourseById(c.courses, r.course).Some? {
      var course := CourseById(c.courses, r.course).value;
      CourseByIdFacts(c.courses, r.course);
      LessonByIdFacts(course.lessons, r.lesson);
      forall lesson
        ensures Contains(course, r.lesson, lesson) <==> LessonById(course.lessons, r.lesson) == Some(lesson)
      {
        ContainsIff(course, r.lesson, lesson);
      }
      if LessonById(course.lessons, r.lesson).Some? {
        assert Contains(course, r.lesson, LessonById(course.lessons, r.lesson).value);
      }
    }
  }

  lemma CourseProposals(c: Catalogue, r: Recommendation, x: Recommendation)
    requires r.topic in c.wanted && r.kind == Course
    ensures x in Yield(Judge(c, r)) <==> ProposesLessonsOf(c, r, x) || ProposesCourse(c, r, x)
  {
    forall course ensures Offers(c, r.course, course) <==> CourseById(c.courses, r.course) == Some(course) {
      OffersIff(c, r.course, course);
    }
    TakesIff(c, r.course);
    if CourseById(c.courses, r.course).Some? {
      var course := CourseById(c.courses, r.course).value;
      CourseByIdFacts(c.courses, r.course);
      LessonsAre(course, r.topic, x);
      assert Offers(c, r.course, course);
    }
  }

  /** What one candidate yields. */
  lemma YieldIff(c: Catalogue, r: Recommendation, x: Recommendation)
    ensures x in Yield(Judge(c, r))
       <==> ProposesLesson(c, r, x) || ProposesLessonsOf(c, r, x) || ProposesCourse(c, r, x)
  {
    if r.topic in c.wanted {
      if r.kind == Lesson { LessonProposals(c, r, x); } else { CourseProposals(c, r, x); }
    }
  }

  /** An item is accepted for a topic if and only if some candidate for the topic proposes it. */
  lemma AcceptedIff(c: Catalogue, candidates: seq<Recommendation>, topic: string, x: Recommendation)
    ensures x in Accepted(c, candidates, topic) <==>
      exists r | r in candidates :: r.topic == topic
        && (ProposesLesson(c, r, x) || ProposesLessonsOf(c, r, x) || ProposesCourse(c, r, x))
  {
    AcceptedMembers(c, candidates, topic);
    forall r { YieldIff(c, r, x); }
  }

  /** The items of a topic are listed by course and then by lesson. */
  lemma ListedInOrder(list: seq<Recommendation>, items: set<Recommendation>)
    requires ListsTopic(list, items)
    ensures forall i, j | 0 <= i < j < |list| ::
              || Before(list[i].course, list[j].course)
              || (list[i].course == list[j].course
                  && (Before(list[i].lesson, list[j].lesson) || list[i].lesson == list[j].lesson))
  {
    forall a: string, b: string ensures Before(a, b) || a == b || Before(b, a) { BeforeTotal(a, b); }
  }

  // ----- the plan -----

  /** The items listed under some of the topics. */
  ghost function ItemsUnder(items: map<string, seq<Recommendation>>, topics: seq<string>): set<Recommendation> {
    set t, x | t in topics && t in items && x in items[t] :: x
  }

  ghost predicate OwnTopic(items: map<string, seq<Recommendation>>) {
    forall t, x | t in items && x in items[t] :: x.topic == t
  }

  lemma ItemsGrow(items: map<string, seq<Recommendation>>, topics: seq<string>, t: string)
    requires t in items
    ensures ItemsUnder(items, topics + [t]) == ItemsUnder(items, topics) + Elements(items[t])
  {
    forall u ensures u in topics + [t] <==> u in topics || u == t {}
  }

  lemma NewTopic(items: map<string, seq<Recommendation>>, topics: seq<string>, t: string)
    requires OwnTopic(items) && t in items && t !in topics
    ensures |ItemsUnder(items, topics + [t])| == |ItemsUnder(items, topics)| + |Elements(items[t])|
  {
    var before, added := ItemsUnder(items, topics), Elements(items[t]);
    ItemsGrow(items, topics, t);
    forall x | x in before ensures x !in added {
      assert x.topic in topics;
      assert x in items[t] ==> x.topic == t;
    }
    assert before * added == {};
  }

  lemma ListedGrows(items: map<string, seq<Recommendation>>, topics: seq<string>, t: string)
    requires t in items
    ensures Listed(items, topics + [t]) == Listed(items, topics) + |items[t]|
  {
    assert (topics + [t])[..|topics|] == topics;
  }

  ghost predicate AllNoRepeats(items: map<string, seq<Recommendation>>) {
    forall t | t in items :: NoRepeats(items[t])
  }

  /** The number resolved is the number of different items in the plan. */
  lemma {:induction false} ResolvedAreItems(items: map<string, seq<Recommendation>>, topics: seq<string>)
    requires NoRepeats(topics) && OwnTopic(items) && AllNoRepeats(items) && forall t | t in topics :: t in items
    ensures Listed(items, topics) == |ItemsUnder(items, topics)|
  {
    if topics == [] {
      assert ItemsUnder(items, topics) == {};
    } else {
      var n := |topics| - 1;
      var before, last := topics[..n], topics[n];
      PrefixGrows(topics, n);
      WholePrefix(topics);
      assert last in topics && forall t | t in before :: t in topics;
      ResolvedAreItems(items, before);
      NewTopic(items, before, last);
      ListedGrows(items, before, last);
      RepeatFree(items[last]);
    }
  }

  lemma ListedAreAccepted(c: Catalogue, plan: Plan, candidates: seq<Recommendation>)
    requires Lists(c, plan, candidates)
    ensures forall t | t in plan.items :: ListsTopic(plan.items[t], Accepted(c, candidates, t))
    ensures forall t, x | t in plan.items :: x in plan.items[t] <==> x in Accepted(c, candidates, t)
    ensures forall t :: t in plan.items <==> Accepted(c, candidates, t) != {}
  {
    forall t, x | t in plan.items ensures x in plan.items[t] <==> x in Accepted(c, candidates, t) {
      assert ListsTopic(plan.items[t], Accepted(c, candidates, t));
      assert x in plan.items[t] <==> x in Elements(plan.items[t]);
    }
    forall t ensures t in plan.items <==> Accepted(c, candidates, t) != {} {
      assert t in plan.items.Keys <==> t in Elements(plan.topics);
    }
  }

  /** A plan resolves as many items as candidates propose, each counted once. */
  lemma PlanCounts(c: Catalogue, plan: Plan, candidates: seq<Recommendation>)
    requires Lists(c, plan, candidates)
    ensures Listed(plan.items, plan.topics) == |ItemsUnder(plan.items, plan.topics)|
    ensures forall x :: x in ItemsUnder(plan.items, plan.topics) <==> x in Accepted(c, candidates, x.topic)
  {
    ListedAreAccepted(c, plan, candidates);
    forall t: string { AcceptedAreSound(c, candidates, t); }
    forall t ensures t in plan.topics <==> t in plan.items {
      assert t in plan.items.Keys <==> t in Elements(plan.topics);
    }
    forall i, j | 0 <= i < j < |plan.topics| ensures plan.topics[i] != plan.topics[j] {
      BeforeIrreflexive(plan.topics[i]);
    }
    ResolvedAreItems(plan.items, plan.topics);
    forall x ensures x in ItemsUnder(plan.items, plan.topics) <==> x in Accepted(c, candidates, x.topic) {
      if x in Accepted(c, candidates, x.topic) {
        assert x.topic in plan.items && x in plan.items[x.topic];
      }
    }
  }

  // ----- counters -----

  ghost predicate Resolves(c: Catalogue, r: Recommendation) {
    exists course :: Offers(c, r.course, course)
      && (r.kind == Lesson ==> exists lesson :: Contains(course, r.lesson, lesson))
  }

  /** The candidate is for a course the learner takes, which has no lesson on the topic, or has one. */
  ghost predicate TakenWith(c: Catalogue, r: Recommendation, lessons: bool) {
    r.kind == Course && Takes(c, r.course)
    && exists course :: Offers(c, r.course, course) && Teaches(course, r.topic) == lessons
  }

  lemma JudgeIs(c: Catalogue, r: Recommendation)
    ensures var v, wanted := Judge(c, r), r.topic in c.wanted;
      && (v.Irrelevant? <==> !wanted) && (v.Rejected? <==> wanted && !Resolves(c, r))
      && (v.DroppedEnrolled? <==> wanted && TakenWith(c, r, false))
      && (v.Converted? <==> wanted && TakenWith(c, r, true))
  {
    forall course ensures Offers(c, r.course, course) <==> CourseById(c.courses, r.course) == Some(course) {
      OffersIff(c, r.course, course);
    }
    TakesIff(c, r.course);
    if CourseById(c.courses, r.course).Some? {
      var course := CourseById(c.courses, r.course).value;
      assert Offers(c, r.course, course);
      LessonsAre(course, r.topic, r);
      forall lesson { ContainsIff(course, r.lesson, lesson); }
      if LessonById(course.lessons, r.lesson).Some? {
        assert Contains(course, r.lesson, LessonById(course.lessons, r.lesson).value);
      }
    }
  }

  /** The positions of the candidates that satisfy `p`. */
  ghost function At(rs: seq<Recommendation>, p: Recommendation -> bool): set<nat> {
    set i: nat | i < |rs| && p(rs[i])
  }

  lemma AtGrows(rs: seq<Recommendation>, r: Recommendation, p: Recommendation -> bool)
    ensures |At(rs + [r], p)| == |At(rs, p)| + if p(r) then 1 else 0
  {
    if p(r) {
      assert At(rs + [r], p) == At(rs, p) + {|rs|};
    } else {
      assert At(rs + [r], p) == At(rs, p);
    }
  }

  ghost function CountedRejected(c: Catalogue): Recommendation -> bool {
    (r: Recommendation) => r.topic in c.wanted && !Resolves(c, r)
  }

  ghost function CountedTaken(c: Catalogue, lessons: bool): Recommendation -> bool {
    (r: Recommendation) => r.topic in c.wanted && TakenWith(c, r, lessons)
  }

  /** The counters: wanted candidates that resolve to nothing, those for a course already taken without a
      lesson on the topic, and those with one. */
  lemma {:induction false} TallyIs(c: Catalogue, rs: seq<Recommendation>)
    ensures var t := TallyOf(c, rs);
      && t.rejected == |At(rs, CountedRejected(c))|
      && t.dropped == |At(rs, CountedTaken(c, false))| && t.converted == |At(rs, CountedTaken(c, true))|
  {
    if rs == [] {
      assert forall p :: At(rs, p) == {};
    } else {
      var n := |rs| - 1;
      PrefixGrows(rs, n);
      WholePrefix(rs);
      TallyIs(c, rs[..n]);
      JudgeIs(c, rs[n]);
      AtGrows(rs[..n], rs[n], CountedRejected(c));
      AtGrows(rs[..n], rs[n], CountedTaken(c, false));
      AtGrows(rs[..n], rs[n], CountedTaken(c, true));
    }
  }
}
