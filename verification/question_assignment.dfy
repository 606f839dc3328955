/** The decision logic of `exam:assign-questions {exam_id}`: look the exam
    up, refuse when no question is active, ask the question selector for a
    set matching the exam's total marks (filtered by the detected subject),
    and on a non-empty successful selection replace the exam's question list
    with the selected ids, numbered 1, 2, 3, ... in selector order.

    The database is a value: the exams by id, each with its ordered rows of
    the exam/question link table, and the question inventory. The selector
    is a parameter, since its implementation is not part of this model. */
module QuestionAssignment {
  import opened Wrappers
  import SubjectDetection

  type ExamId = nat
  type QuestionId = nat

  datatype Status = Active | Inactive

  /** The part of a question record the command looks at. */
  datatype Question = Question(id: QuestionId, status: Status)

  /** One row of the exam/question link table with its `order_position`. */
  datatype Attachment = Attachment(questionId: QuestionId, orderPosition: int)

  datatype Exam = Exam(name: string, totalMarks: int, questions: seq<Attachment>)

  datatype Database = Database(exams: map<ExamId, Exam>, inventory: seq<Question>)

  /** What `selectQuestions` returns that the command acts on: the
      `success` flag and the ids of the entries of `questions`, in order. */
  datatype Selection = Selection(success: bool, questionIds: seq<QuestionId>)

  /** The arguments the command passes to the selector: the exam's total
      marks and the tag filter (none when no subject was detected). */
  datatype SelectorCall = SelectorCall(targetMarks: int, tag: Option<string>)

  type Selector = (int, Option<string>) -> Selection

  /** The database after the command, its exit code, and the selector call
      it made, if any. */
  datatype Outcome = Outcome(db: Database, exitCode: int, call: Option<SelectorCall>)

  /** `Question::where('status', 'active')->count()`. */
  function CountActive(inventory: seq<Question>): (n: nat)
    ensures n <= |inventory|
    ensures n == 0 <==> forall i :: 0 <= i < |inventory| ==> inventory[i].status != Active
    ensures n == |inventory| <==> forall i :: 0 <= i < |inventory| ==> inventory[i].status == Active
  {
    if |inventory| == 0 then 0
    else
      var rest := CountActive(inventory[1..]);
      assert forall i :: 1 <= i < |inventory| ==> inventory[1..][i - 1] == inventory[i];
      (if inventory[0].status == Active then 1 else 0) + rest
  }

  /** The attach loop from position `index` on: each remaining id is
      appended as a row whose `order_position` is its index plus one. */
  function AttachFrom(rows: seq<Attachment>, ids: seq<QuestionId>, index: nat): (r: seq<Attachment>)
    requires index <= |ids|
    ensures |r| == |rows| + |ids| - index
    ensures r[..|rows|] == rows
    ensures forall k :: index <= k < |ids| ==> r[|rows| + k - index] == Attachment(ids[k], k + 1)
    decreases |ids| - index
  {
    if index == |ids| then rows
    else AttachFrom(rows + [Attachment(ids[index], index + 1)], ids, index + 1)
  }

  /** The question ids of a list of rows, in order. */
  function QuestionIds(rows: seq<Attachment>): seq<QuestionId> {
    seq(|rows|, i requires 0 <= i < |rows| => rows[i].questionId)
  }

  /** The `order_position`s of a list of rows, in order. */
  function Positions(rows: seq<Attachment>): seq<int> {
    seq(|rows|, i requires 0 <= i < |rows| => rows[i].orderPosition)
  }

  /** Detaching every row and attaching the selected ids: the resulting rows
      carry exactly the selected ids in selector order, numbered 1..n. */
  function ReplaceQuestions(exam: Exam, ids: seq<QuestionId>): (e: Exam)
    ensures e.name == exam.name && e.totalMarks == exam.totalMarks
    ensures QuestionIds(e.questions) == ids
    ensures Positions(e.questions) == seq(|ids|, i => i + 1)
  {
    var detached := exam.(questions := []);
    var rows := AttachFrom(detached.questions, ids, 0);
    forall k | 0 <= k < |ids|
      ensures QuestionIds(rows)[k] == ids[k]
      ensures Positions(rows)[k] == seq(|ids|, i => i + 1)[k]
    {
      assert rows[k] == rows[|detached.questions| + k - 0] == Attachment(ids[k], k + 1);
    }
    detached.(questions := rows)
  }

  /** `handle()`. A missing exam makes `findOrFail` throw, which the command
      catches and turns into exit code 1. */
  function Handle(db: Database, examId: ExamId, selector: Selector): (o: Outcome)
    ensures o.exitCode == 0 || o.exitCode == 1
    ensures o.db.inventory == db.inventory
    ensures o.db.exams.Keys == db.exams.Keys
    ensures o.exitCode == 1 ==> o.db == db
  {
    if examId !in db.exams then Outcome(db, 1, None)
    else
      var exam := db.exams[examId];
      if CountActive(db.inventory) == 0 then Outcome(db, 1, None)
      else
        var call := SelectorCall(exam.totalMarks, SubjectDetection.FilterTag(exam.name));
        var selection := selector(call.targetMarks, call.tag);
        if !selection.success || |selection.questionIds| == 0 then Outcome(db, 1, Some(call))
        else
          var replaced := ReplaceQuestions(exam, selection.questionIds);
          Outcome(db.(exams := db.exams[examId := replaced]), 0, Some(call))
  }

  /** An unknown exam id fails without consulting the selector or changing
      anything. */
  lemma UnknownExamFails(db: Database, examId: ExamId, selector: Selector)
    requires examId !in db.exams
    ensures Handle(db, examId, selector) == Outcome(db, 1, None)
  {
  }

  /** With no active question in the inventory the command fails before
      the selector is consulted and leaves every exam as it was. */
  lemma NoActiveQuestionsFails(db: Database, examId: ExamId, selector: Selector)
    requires examId in db.exams
    requires forall i :: 0 <= i < |db.inventory| ==> db.inventory[i].status == Inactive
    ensures Handle(db, examId, selector) == Outcome(db, 1, None)
  {
  }

  /** Once an active question exists the selector is consulted exactly once,
      with the exam's total marks and the tag detected from its name. */
  lemma SelectorGetsDetectedFilter(db: Database, examId: ExamId, selector: Selector)
    requires examId in db.exams
    requires exists i :: 0 <= i < |db.inventory| && db.inventory[i].status == Active
    ensures Handle(db, examId, selector).call
         == Some(SelectorCall(db.exams[examId].totalMarks,
                              SubjectDetection.FilterTag(db.exams[examId].name)))
  {
  }

  /** A failed or empty selection exits with 1 and detaches nothing. */
  lemma FailedSelectionLeavesExamUntouched(db: Database, examId: ExamId, selector: Selector)
    requires examId in db.exams
    requires CountActive(db.inventory) > 0
    requires var exam := db.exams[examId];
             var s := selector(exam.totalMarks, SubjectDetection.FilterTag(exam.name));
             !s.success || |s.questionIds| == 0
    ensures Handle(db, examId, selector).exitCode == 1
    ensures Handle(db, examId, selector).db == db
  {
  }

  /** A non-empty successful selection exits with 0; the exam's rows are
      then exactly the selected ids in selector order with positions
      1..n, whatever rows it had before, and no other exam changes. */
  lemma SuccessReplacesQuestions(db: Database, examId: ExamId, selector: Selector)
    requires examId in db.exams
    requires CountActive(db.inventory) > 0
    requires var exam := db.exams[examId];
             var s := selector(exam.totalMarks, SubjectDetection.FilterTag(exam.name));
             s.success && |s.questionIds| > 0
    ensures var o := Handle(db, examId, selector);
            var exam := db.exams[examId];
            var ids := selector(exam.totalMarks, SubjectDetection.FilterTag(exam.name)).questionIds;
            && o.exitCode == 0
            && o.db.exams[examId].name == exam.name
            && o.db.exams[examId].totalMarks == exam.totalMarks
            && QuestionIds(o.db.exams[examId].questions) == ids
            && Positions(o.db.exams[examId].questions) == seq(|ids|, i => i + 1)
            && forall other :: other in db.exams && other != examId ==> o.db.exams[other] == db.exams[other]
  {
  }

  /** The exit code is 0 exactly when the exam exists, some question is
      active and the selector returned a non-empty successful selection. */
  lemma ExitCodeZeroIff(db: Database, examId: ExamId, selector: Selector)
    ensures Handle(db, examId, selector).exitCode == 0
        <==> examId in db.exams
             && CountActive(db.inventory) > 0
             && var exam := db.exams[examId];
                var s := selector(exam.totalMarks, SubjectDetection.FilterTag(exam.name));
                s.success && |s.questionIds| > 0
  {
  }

  /** Running the command a second time leaves the database as the first run
      left it, and exits the same way, provided the selector of the second
      run returns the same selection for the exam's marks and tag filter as
      the selector of the first run did. The exam's name and marks are
      unchanged by the first run, so the second run asks the same question. */
  lemma RerunIsIdempotent(db: Database, examId: ExamId, first: Selector, second: Selector)
    requires examId in db.exams ==>
               var exam := db.exams[examId];
               var tag := SubjectDetection.FilterTag(exam.name);
               second(exam.totalMarks, tag) == first(exam.totalMarks, tag)
    ensures var run1 := Handle(db, examId, first);
            var run2 := Handle(run1.db, examId, second);
            run2.db == run1.db && run2.exitCode == run1.exitCode
  {
  }
}
