# Exam question assignment — a Dafny model

This project models the console command `exam:assign-questions {exam_id}` of
the examination portal. The command does two things of substance:

1. **Subject detection.** It lower-cases the exam's name (PHP 8 `strtolower`,
   which changes only the ASCII letters `A`–`Z`). Then it runs a fixed chain of
   `str_contains` tests. The first test that succeeds picks the tag filter
   passed to the question selector. The tags are `python`, `php`, `nodejs`,
   `javascript`, `java`, `sql` and `dsa`. A name that passes no test gets no
   filter.
2. **Assignment.** It refuses when the exam does not exist or no question is
   active. Otherwise it asks the question selector for questions worth the
   exam's total marks. A failed or empty selection exits with code 1 and
   leaves the exam alone. On success it detaches every question from the exam
   and attaches the selected ids in selector order, with `order_position`
   1, 2, 3, …, and exits with code 0.

Files:

- `wrappers.dfy` — `Option`.
- `ascii_text.dfy` — module `AsciiText`: ASCII lower-casing and `str_contains`.
  `Contains` is proved equal to the declarative "occurs at some offset"
  relation.
- `subject_detection.dfy` — module `SubjectDetection`: `Detect` lower-cases
  the name and runs `Classify`, the command's chain as written. `FirstMatch` over `PriorityTable` is an
  independent reference: a keyword table searched in priority order, with the
  chain's redundant tests removed. The two are proved to agree on every name.
- `question_assignment.dfy` — module `QuestionAssignment`: the database as a
  value (exams by id with their ordered link-table rows, plus the question
  inventory). `Handle` is the command's `handle()` as a pure function from the
  database, the exam id and the selector to the new database, the exit code
  and the selector call made.

The question selector (`App\Services\QuestionSelector`) is not part of this
model. It is a parameter of `Handle`: any function from (target marks, tag
filter) to (success flag, question ids). The properties of `Handle` hold for
any such function.

Two facts about the code worth stating:

- An empty selection is a failure (exit code 1, nothing detached), even when
  the exam's total marks are 0. `FailedSelectionLeavesExamUntouched` states it.
- The keyword chain has two redundant tests: `nodejs` after `node`, and the
  "no `javascript`" guard on the Java branch, which the branch before it
  already excludes. `DetectFollowsPriorityTable` proves the chain equal to a
  keyword table searched in priority order.

Keywords are matched as bare substrings, not as words. A name containing
"JSON" is never a Java exam, since "json" contains "js". A graph-algorithms
exam mentioning "Nodes" is tagged `nodejs`, unless "python" or "php" also
occurs in it. `SubstringsInsideOtherWords` states both.

## Model

| member | source | states |
|---|---|---|
| AsciiText.Lower | app/Console/Commands/AssignQuestionsToExam.php:54 | lower-casing keeps the length and maps each character through ASCII-only lower-casing |
| AsciiText.LowerIdempotent | app/Console/Commands/AssignQuestionsToExam.php:54 | a lower-cased name has no upper-case ASCII letter; lower-casing twice equals lower-casing once; an already lower-case name is unchanged |
| AsciiText.SameIgnoringCaseIffSameLower | app/Console/Commands/AssignQuestionsToExam.php:54 | two names agree up to ASCII case exactly when their lower-cased forms are equal |
| AsciiText.ContainsIsSubstring | app/Console/Commands/AssignQuestionsToExam.php:57-75 | the left-to-right `str_contains` search answers true exactly when the needle occurs at some offset of the haystack |
| AsciiText.ContainsTransitive | app/Console/Commands/AssignQuestionsToExam.php:63 | a haystack containing a keyword contains every substring of that keyword |
| SubjectDetection.FilterTag | app/Console/Commands/AssignQuestionsToExam.php:53-80 | the filter is absent exactly when no tag is detected; when present it is one of python, php, nodejs, javascript, java, sql, dsa, and it is the name of the detected tag |
| SubjectDetection.FirstMatchSpec | app/Console/Commands/AssignQuestionsToExam.php:56-80 | reference search: no result exactly when no entry's keyword occurs; otherwise the result is the tag of the first entry whose keyword occurs |
| SubjectDetection.FirstMatchAt | app/Console/Commands/AssignQuestionsToExam.php:56-80 | in a table with distinct tags, the search returns entry i's tag exactly when entry i matches and no earlier entry does |
| SubjectDetection.LongKeywordsContainShortOnes | app/Console/Commands/AssignQuestionsToExam.php:63-69 | a name containing "nodejs" contains "node", and one containing "javascript" contains "java" |
| SubjectDetection.DetectFollowsPriorityTable | app/Console/Commands/AssignQuestionsToExam.php:56-80 | the command's chain yields, for every name, the same tag as the priority table searched in order |
| SubjectDetection.FirstMatchIsFirstMention | app/Console/Commands/AssignQuestionsToExam.php:56-80 | the table search yields tag t exactly when a keyword of t occurs and no keyword of a tag ranked before t does |
| SubjectDetection.DetectIsFirstMention | app/Console/Commands/AssignQuestionsToExam.php:57-80 | first match wins: the detected tag is t exactly when a keyword of t occurs in the lower-cased name and no keyword of a higher-priority tag does |
| SubjectDetection.NoTagIffNoKeyword | app/Console/Commands/AssignQuestionsToExam.php:57-79 | no tag is detected exactly when the lower-cased name contains none of python, php, node, js, java, sql, database, c++, dsa, data structures |
| SubjectDetection.PythonThenPhpWin | app/Console/Commands/AssignQuestionsToExam.php:57-62 | a name containing "python" is tagged python whatever else it holds; one containing "php" but not "python" is tagged php |
| SubjectDetection.NodeJsCondition | app/Console/Commands/AssignQuestionsToExam.php:63-65 | the nodejs tag is detected exactly when "node" occurs and neither "python" nor "php" does |
| SubjectDetection.JavaCondition | app/Console/Commands/AssignQuestionsToExam.php:66-71 | a name containing "javascript" is never tagged java; java is detected exactly when "java" occurs and none of python, php, node, js, javascript does |
| SubjectDetection.DetectIgnoresCase | app/Console/Commands/AssignQuestionsToExam.php:54 | names equal up to ASCII case get the same tag, and a name gets the same tag as its lower-cased form |
| SubjectDetection.SubstringsInsideOtherWords | app/Console/Commands/AssignQuestionsToExam.php:63-71 | a name containing "json" is never tagged java; one containing "nodes" is tagged nodejs unless python or php outranks it |
| QuestionAssignment.CountActive | app/Console/Commands/AssignQuestionsToExam.php:40 | the active count is at most the inventory size, is zero exactly when no question is active, and equals the size exactly when all are active |
| QuestionAssignment.AttachFrom | app/Console/Commands/AssignQuestionsToExam.php:109-113 | the attach loop keeps the existing rows as a prefix and appends one row per remaining id, in order, with order_position equal to the id's index plus one |
| QuestionAssignment.ReplaceQuestions | app/Console/Commands/AssignQuestionsToExam.php:105-113 | after detach and attach the exam's rows carry exactly the selected ids in selector order with positions 1..n; name and total marks are kept |
| QuestionAssignment.Handle | app/Console/Commands/AssignQuestionsToExam.php:33-141 | exit code is 0 or 1; the inventory and the set of exams never change; on exit code 1 the database is unchanged |
| QuestionAssignment.UnknownExamFails | app/Console/Commands/AssignQuestionsToExam.php:33-141 | an unknown exam id exits with 1, consults no selector and changes nothing |
| QuestionAssignment.NoActiveQuestionsFails | app/Console/Commands/AssignQuestionsToExam.php:40-47 | with no active question the command exits with 1 before consulting the selector and changes nothing |
| QuestionAssignment.SelectorGetsDetectedFilter | app/Console/Commands/AssignQuestionsToExam.php:50-82 | once some question is active the selector is called with the exam's total marks and the tag detected from its name |
| QuestionAssignment.FailedSelectionLeavesExamUntouched | app/Console/Commands/AssignQuestionsToExam.php:84-101 | an unsuccessful or empty selection exits with 1 and leaves the database, including the exam's existing rows, unchanged |
| QuestionAssignment.SuccessReplacesQuestions | app/Console/Commands/AssignQuestionsToExam.php:103-137 | a non-empty successful selection exits with 0; the exam's rows become exactly the selected ids in selector order with positions 1..n, whatever rows it had before; no other exam changes |
| QuestionAssignment.ExitCodeZeroIff | app/Console/Commands/AssignQuestionsToExam.php:43-137 | exit code 0 exactly when the exam exists, some question is active and the selection is successful and non-empty |
| QuestionAssignment.RerunIsIdempotent | app/Console/Commands/AssignQuestionsToExam.php:103-113 | running the command again, with a selector that returns the same selection for the exam's marks and tag filter as the first run's, leaves the database as the first run left it and exits the same way |

## Left out

- `QuestionSelector::selectQuestions`: its code is not part of this model. The selector is a parameter, and only its `success` flag and the ids of its `questions` are used.
- Console output (all `info`/`line`/`error` text, the remediation hints and the `strtoupper` of the tag in them): presentation only.
- Selection metadata (`total_marks`, `algorithm_used`, `avg_marks_per_question`, `difficulty_distribution`): only printed, never acted on.
- Exceptions other than the missing exam: a database error is caught and gives exit code 1. If it happens midway through the attach loop, the rows already written stay. The model treats database operations as total.
- Link-table constraints: attaching the same id twice is modelled as two rows. A unique index on the table, if one exists, is not part of this model.
- Array keys: the command numbers rows by the array key of each selected entry. The model assumes the selector returns a list, with keys 0, 1, 2, ….
- Strings are sequences of characters, not bytes. All keywords are ASCII, so for UTF-8 names byte-wise and character-wise substring tests agree. Lower-casing changes only `A`–`Z`, as PHP 8 `strtolower` does.
- Reading `exam_id` from the command line: the exam id is a natural number given directly.
- QuestionAssignment.RerunIsIdempotent: assumes the second run's selector gives the same selection as the first run's. The real selector's code is not part of this model; if it picks at random or reads the exam/question link table, a real second run can attach a different set.
