/** The subscription list screen's lookup of one enrollment in the current snapshot. */
module SubscribeList {
  import opened Lookup
  import opened Entities

  /** Whether a subscription links this student to this course. */
  predicate Links(s: Subscribe, studentId: int, courseId: int) {
    s.studentId == studentId && s.courseId == courseId
  }

  /** `findSubscribe`: the first subscription of the snapshot linking the student to the course.
      It only reads the snapshot, which it is given by value. */
  function FindSubscribe(snapshot: seq<Subscribe>, studentId: int, courseId: int): (r: Option<Subscribe>)
    ensures r.Some? ==> r.value.studentId == studentId && r.value.courseId == courseId
    ensures r.Some? ==> exists i :: 0 <= i < |snapshot| && snapshot[i] == r.value
                                  && forall j :: 0 <= j < i ==> !Links(snapshot[j], studentId, courseId)
    ensures r.None? <==> forall i :: 0 <= i < |snapshot| ==> !Links(snapshot[i], studentId, courseId)
  {
    Find(snapshot, (s: Subscribe) => Links(s, studentId, courseId))
  }

  /** With two matching subscriptions, the earlier one is returned. */
  lemma FirstOfDuplicates(a: Subscribe, b: Subscribe, rest: seq<Subscribe>)
    requires Links(a, b.studentId, b.courseId)
    ensures FindSubscribe([a, b] + rest, b.studentId, b.courseId) == Some(a)
  {
    var s := [a, b] + rest;
    assert s[0] == a;
  }
}
