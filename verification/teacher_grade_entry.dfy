/** The teacher's grade-entry screen for one student and one course: the score field is prefilled
    from the existing enrollment, and Save either updates that enrollment's score or creates a
    new enrollment, after checking the score lies in 0..20. */
module TeacherGradeEntry {
  import opened Lookup
  import opened Entities
  import SubscribeList

  const ScoreRangeMessage: string := "Score must be between 0 and 20"

  /** The subscription table in row order, and the next auto-generated id. */
  datatype SubscribeTable = SubscribeTable(rows: seq<Subscribe>, nextId: int)

  /** Primary keys are distinct and below the next key. */
  predicate Valid(t: SubscribeTable) {
    && (forall i :: 0 <= i < |t.rows| ==> t.rows[i].id < t.nextId)
    && (forall i, j :: 0 <= i < j < |t.rows| ==> t.rows[i].id != t.rows[j].id)
  }

  /** The student's subscriptions, in row order. */
  function ByStudent(rows: seq<Subscribe>, studentId: int): seq<Subscribe> {
    Filter(rows, (s: Subscribe) => s.studentId == studentId)
  }

  /** The student's first subscription to the course, the one both prefill and Save act on. */
  function Existing(rows: seq<Subscribe>, studentId: int, courseId: int): Option<Subscribe> {
    Find(ByStudent(rows, studentId), (s: Subscribe) => s.courseId == courseId)
  }

  /** The enrollment the screen acts on is the one the list screen's lookup finds. */
  lemma ExistingIsFindSubscribe(rows: seq<Subscribe>, studentId: int, courseId: int)
    ensures Existing(rows, studentId, courseId) == SubscribeList.FindSubscribe(rows, studentId, courseId)
  {
    FindInFilter(rows, (s: Subscribe) => s.studentId == studentId, (s: Subscribe) => s.courseId == courseId,
                 (s: Subscribe) => SubscribeList.Links(s, studentId, courseId));
  }

  /** The initial score field: the existing enrollment's score, or empty (None) when there is none. */
  function Prefill(rows: seq<Subscribe>, studentId: int, courseId: int): (r: Option<real>)
    ensures r.None? <==> forall i :: 0 <= i < |rows| ==> !SubscribeList.Links(rows[i], studentId, courseId)
    ensures r.Some? ==> exists i :: 0 <= i < |rows| && SubscribeList.Links(rows[i], studentId, courseId)
                                    && rows[i].score == r.value
  {
    ExistingIsFindSubscribe(rows, studentId, courseId);
    match Existing(rows, studentId, courseId)
    case None => None
    case Some(s) => Some(s.score)
  }

  /** How a click on Save ends: an error shown on the screen (nothing written, the screen stays),
      or a written row after which the screen closes. */
  datatype GradeSave = Rejected(error: string) | Updated(row: Subscribe) | Inserted(row: Subscribe)

  /** Room's update: the row with the same primary key is replaced. */
  function UpdateRow(t: SubscribeTable, row: Subscribe): (r: SubscribeTable)
    ensures |r.rows| == |t.rows| && r.nextId == t.nextId
    ensures forall i :: 0 <= i < |t.rows| ==> r.rows[i] == if t.rows[i].id == row.id then row else t.rows[i]
  {
    SubscribeTable(seq(|t.rows|, i requires 0 <= i < |t.rows| => if t.rows[i].id == row.id then row else t.rows[i]), t.nextId)
  }

  /** Room's insert of a row whose id is 0: it receives the next auto-generated id. */
  function InsertRow(t: SubscribeTable, row: Subscribe): (r: SubscribeTable)
    ensures r.rows == t.rows + [row.(id := t.nextId)] && r.nextId == t.nextId + 1
  {
    SubscribeTable(t.rows + [row.(id := t.nextId)], t.nextId + 1)
  }

  /** The Save handler, given the parsed score field (None when it is not a number). */
  function SaveGrade(t: SubscribeTable, studentId: int, courseId: int, parsed: Option<real>): (r: (SubscribeTable, GradeSave))
    ensures parsed.None? || !InScoreRange(parsed.value) <==> r.1.Rejected?
    ensures r.1.Rejected? ==> r == (t, Rejected(ScoreRangeMessage))
    ensures r.1.Updated? ==>
      && Existing(t.rows, studentId, courseId).Some?
      && r.1.row == Existing(t.rows, studentId, courseId).value.(score := parsed.value)
      && r.0 == UpdateRow(t, r.1.row)
    ensures r.1.Inserted? ==>
      && Existing(t.rows, studentId, courseId).None?
      && r.1.row == Subscribe(0, studentId, courseId, parsed.value)
      && r.0.rows == t.rows + [Subscribe(t.nextId, studentId, courseId, parsed.value)]
      && r.0 == InsertRow(t, r.1.row)
    ensures !r.1.Rejected? ==> r.1.Updated? == Existing(t.rows, studentId, courseId).Some?
  {
    if parsed.None? || parsed.value < 0.0 || parsed.value > 20.0 then (t, Rejected(ScoreRangeMessage))
    else
      var v := parsed.value;
      match Existing(t.rows, studentId, courseId)
      case Some(e) =>
        var row := e.(score := v);
        (UpdateRow(t, row), Updated(row))
      case None =>
        var row := Subscribe(0, studentId, courseId, v);
        (InsertRow(t, row), Inserted(row))
  }

  /** Both ends of the range are accepted. */
  lemma BoundsInclusive(t: SubscribeTable, studentId: int, courseId: int)
    ensures !SaveGrade(t, studentId, courseId, Some(0.0)).1.Rejected?
    ensures !SaveGrade(t, studentId, courseId, Some(20.0)).1.Rejected?
    ensures SaveGrade(t, studentId, courseId, Some(20.5)).1.Rejected?
    ensures SaveGrade(t, studentId, courseId, Some(-0.5)).1.Rejected?
  {
  }

  /** An update touches exactly one row, the student's first enrollment in the course, and in it
      only the score: id, student and course are kept; every other row is as it was. */
  lemma UpdateTouchesOneRow(t: SubscribeTable, studentId: int, courseId: int, v: real)
    requires Valid(t) && InScoreRange(v)
    requires Existing(t.rows, studentId, courseId).Some?
    ensures var r := SaveGrade(t, studentId, courseId, Some(v)).0;
      exists k :: 0 <= k < |t.rows|
        && t.rows[k] == Existing(t.rows, studentId, courseId).value
        && t.rows[k].studentId == studentId && t.rows[k].courseId == courseId
        && r.rows == t.rows[k := t.rows[k].(score := v)]
  {
    ExistingIsFindSubscribe(t.rows, studentId, courseId);
    var e := Existing(t.rows, studentId, courseId).value;
    var k :| 0 <= k < |t.rows| && t.rows[k] == e;
    UpdateRowAt(t, k, e.(score := v));
  }

  /** With distinct keys, an update replaces exactly the row at the key's position. */
  lemma UpdateRowAt(t: SubscribeTable, k: nat, row: Subscribe)
    requires Valid(t) && k < |t.rows| && row.id == t.rows[k].id
    ensures UpdateRow(t, row).rows == t.rows[k := row]
  {
    var u := UpdateRow(t, row);
    forall i | 0 <= i < |t.rows|
      ensures u.rows[i] == t.rows[k := row][i]
    {
      if i != k {
        assert t.rows[i].id != t.rows[k].id;
      }
    }
  }

  /** The first row linking the pair is the one the lookup returns. */
  lemma FirstLinkFound(rows: seq<Subscribe>, studentId: int, courseId: int, k: nat)
    requires k < |rows| && SubscribeList.Links(rows[k], studentId, courseId)
    requires forall j :: 0 <= j < k ==> !SubscribeList.Links(rows[j], studentId, courseId)
    ensures Prefill(rows, studentId, courseId) == Some(rows[k].score)
  {
    ExistingIsFindSubscribe(rows, studentId, courseId);
    var f := SubscribeList.FindSubscribe(rows, studentId, courseId);
    var m :| 0 <= m < |rows| && rows[m] == f.value
             && forall j :: 0 <= j < m ==> !SubscribeList.Links(rows[j], studentId, courseId);
    assert !(m < k) && !(k < m);
  }

  lemma UpdatedThenPrefill(t: SubscribeTable, studentId: int, courseId: int, v: real)
    requires Valid(t) && InScoreRange(v)
    requires Existing(t.rows, studentId, courseId).Some?
    ensures Prefill(SaveGrade(t, studentId, courseId, Some(v)).0.rows, studentId, courseId) == Some(v)
  {
    var rows := SaveGrade(t, studentId, courseId, Some(v)).0.rows;
    ExistingIsFindSubscribe(t.rows, studentId, courseId);
    var e := Existing(t.rows, studentId, courseId).value;
    UpdateTouchesOneRow(t, studentId, courseId, v);
    var k :| 0 <= k < |t.rows| && t.rows[k] == e
             && forall j :: 0 <= j < k ==> !SubscribeList.Links(t.rows[j], studentId, courseId);
    assert rows == t.rows[k := e.(score := v)];
    assert forall j :: 0 <= j < k ==> rows[j] == t.rows[j];
    FirstLinkFound(rows, studentId, courseId, k);
  }

  lemma InsertedThenPrefill(t: SubscribeTable, studentId: int, courseId: int, v: real)
    requires InScoreRange(v)
    requires Existing(t.rows, studentId, courseId).None?
    ensures Prefill(SaveGrade(t, studentId, courseId, Some(v)).0.rows, studentId, courseId) == Some(v)
  {
    var rows := SaveGrade(t, studentId, courseId, Some(v)).0.rows;
    ExistingIsFindSubscribe(t.rows, studentId, courseId);
    var k := |t.rows|;
    assert rows == t.rows + [Subscribe(t.nextId, studentId, courseId, v)];
    assert forall j :: 0 <= j < k ==> rows[j] == t.rows[j];
    FirstLinkFound(rows, studentId, courseId, k);
  }

  /** After a successful save, reopening the screen prefills the saved score. */
  lemma SaveThenPrefill(t: SubscribeTable, studentId: int, courseId: int, v: real)
    requires Valid(t) && InScoreRange(v)
    ensures Prefill(SaveGrade(t, studentId, courseId, Some(v)).0.rows, studentId, courseId) == Some(v)
  {
    if Existing(t.rows, studentId, courseId).Some? {
      UpdatedThenPrefill(t, studentId, courseId, v);
    } else {
      InsertedThenPrefill(t, studentId, courseId, v);
    }
  }

  /** Saving keeps primary keys distinct. */
  lemma SaveKeepsValid(t: SubscribeTable, studentId: int, courseId: int, parsed: Option<real>)
    requires Valid(t)
    ensures Valid(SaveGrade(t, studentId, courseId, parsed).0)
  {
    var r := SaveGrade(t, studentId, courseId, parsed);
    if r.1.Updated? {
      var e := Existing(t.rows, studentId, courseId).value;
      assert e in ByStudent(t.rows, studentId);
      var k :| 0 <= k < |t.rows| && t.rows[k] == e;
      forall i | 0 <= i < |t.rows| ensures r.0.rows[i].id == t.rows[i].id { }
    }
  }
}
