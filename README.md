# BrainQuest quiz core in Dafny

BrainQuest is a quiz game. A Spring back end stores topics, questions, answers and highscores. A React front end shows a player one question at a time. This project models the back end's rules and proves properties of them.

- **Answer store** (`Answers`, class `AnswerService`). A question has at most 4 answers (A1) and at most one correct answer (A2). Once it has 4 answers, one of them is correct (A3). `createAnswer` enforces all three, one answer at a time. `updateAnswer` rechecks A1 and A2, and `deleteAnswer` checks nothing.
- **Quiz engine** (`Questions`, class `QuestionService`):
  - `getQuizQuestion` leaves out questions with fewer than 4 answers and the excluded ones. When none is left it records the player's highscore. Otherwise it serves one question with its answers shuffled.
  - `checkCorrectAnswer` judges a submission. Answer id 0 means the timer ran out. A wrong answer records a highscore.
  - `fiftyFiftyJoker` shows the first correct answer and one wrong answer.
  - `updateQuestion` and `deleteQuestion` change the question table.
- **Highscores** (`Highscores`, class `HighscoreService`):
  - an in-place stable sort by one of five keys, in either direction;
  - the `limit` cut;
  - create, partial update and delete.
- **Highscore listing** (`HighscoreListing`). The `GET /highscores` pipeline: filter (both filters or neither), sort, then limit.
- **Topics** (`TopicStore`, class `TopicRepository`; `Topics`, class `TopicService`). `getAllTopics` lists every topic with the distinct difficulties of its playable questions. `updateTopic` and `deleteTopic` change the topic table.
- **DTO mapping** (`QuestionMapper`). The copies MapStruct generates. A player never sees an answer's `correct` flag.
- **Front-end helpers**:
  - `PlayerName`: `validatePlayerName` (trim, minimum length, token grammar).
  - `Chunking`: `chunkArray`.

The repositories become `seq` fields of the service classes. Each store hands out ids from a `nextId` counter, and lookups return `Option`. Exceptions become `Result`/`Outcome` values, with one `Error` constructor per kind of failure. Each random choice becomes a parameter the caller supplies:
- `pick`: which remaining question is served, taken modulo the count;
- `keys`: the swap partners of the answer shuffle;
- `skip`: which wrong answer the joker shows;
- `correctFirst`: the order of the joker's two answers.

The contracts state membership and permutation facts that hold for every such choice.

## Model

| member | source | states |
|---|---|---|
| Entities.Ordinal | backend/src/main/java/ch/quizinno/brainquest/enums/Difficulty.java:6-10 | a difficulty's position in declaration order (EASY, MEDIUM, HARD), always below 3; the DIFFICULTY sort key compares it |
| QuestionMapper.IntValue | backend/build/generated/sources/annotationProcessor/java/main/ch/quizinno/brainquest/mappers/QuestionMapperImpl.java:71 | `Long.intValue` is the 32-bit value congruent to the id modulo 2^32, and equals the id whenever the id fits in 32 bits |
| QuestionMapper.AnswerToQuizAnswerDTO | backend/build/generated/sources/annotationProcessor/java/main/ch/quizinno/brainquest/mappers/QuestionMapperImpl.java:44-55 | null maps to null; otherwise the DTO carries exactly the answer's id and text |
| QuestionMapper.QuizAnswerHidesCorrectness | backend/build/generated/sources/annotationProcessor/java/main/ch/quizinno/brainquest/mappers/QuestionMapperImpl.java:49-54 | the DTO of an answer is the same whatever its `correct` flag and question, so neither can leak to the player |
| QuestionMapper.QuizAnswers | backend/src/main/java/ch/quizinno/brainquest/services/QuestionService.java:216-218 | mapping a list gives one DTO per answer |
| QuestionMapper.QuizAnswersHideCorrectness | backend/src/main/java/ch/quizinno/brainquest/services/QuestionService.java:216-218 | two answer lists that agree on ids and texts, position by position, map to the same DTO list |
| QuestionMapper.QuestionToQuizQuestionDTO | backend/build/generated/sources/annotationProcessor/java/main/ch/quizinno/brainquest/mappers/QuestionMapperImpl.java:22-41 | null only when both arguments are null; the answers are passed through unchanged; with a question present, id, text, difficulty and topic are copied, and with no question they stay null |
| QuestionMapper.QuestionToCorrectQuestionDTO | backend/build/generated/sources/annotationProcessor/java/main/ch/quizinno/brainquest/mappers/QuestionMapperImpl.java:58-77 | null only when question and answer are both null; `correct` is the argument; id and info come from the question (null without one); correctAnswerId is the answer id's `intValue`, or 0 without an answer |
| Answers.AnswersOfMembers | backend/src/main/java/ch/quizinno/brainquest/services/AnswerService.java:144-146 | an answer is listed for question q iff it is stored with question id q |
| Answers.AnswersOfAppend | backend/src/main/java/ch/quizinno/brainquest/services/AnswerService.java:80 | appending a row extends question q's answer list by that row if it belongs to q, and leaves the list alone otherwise |
| Answers.FindIndex | backend/src/main/java/ch/quizinno/brainquest/services/AnswerService.java:92 | a found position holds an answer with that id; not found iff no stored answer has the id |
| Answers.HasCorrectCount | backend/src/main/java/ch/quizinno/brainquest/services/AnswerService.java:71 | `anyMatch(isCorrect)` holds iff the number of correct answers is positive |
| Answers.CreateChecksAreExact | backend/src/main/java/ch/quizinno/brainquest/services/AnswerService.java:62-78 | for a question satisfying A1-A3, the three checks accept a new answer iff adding it keeps A1-A3 (both directions) |
| Answers.CreateKeepsTableOk | backend/src/main/java/ch/quizinno/brainquest/services/AnswerService.java:57-81 | if every question satisfies A1-A3 before a createAnswer call, every question satisfies them after it |
| Answers.ReplayCreatesKeepsTableOk | backend/src/main/java/ch/quizinno/brainquest/services/AnswerService.java:57-81 | starting from an empty table, any sequence of createAnswer calls leaves each question with at most 4 answers, at most one correct, and exactly one correct once it has 4 |
| Answers.DeleteKeepsTableOk | backend/src/main/java/ch/quizinno/brainquest/services/AnswerService.java:130-136 | removing any row keeps A1-A3 for every question |
| Answers.RemoveAtMembers | backend/src/main/java/ch/quizinno/brainquest/services/AnswerService.java:132 | with unique ids, the rows left after a delete are exactly the stored rows with a different id |
| Answers.Updated | backend/src/main/java/ch/quizinno/brainquest/services/AnswerService.java:96-103 | the id is kept; the text is replaced only if one is given; `correct` is always overwritten (false when omitted); the question is replaced when one is given |
| Answers.UpdateRefusesResavingTheCorrectAnswer | backend/src/main/java/ch/quizinno/brainquest/services/AnswerService.java:94-120 | as written, renaming the correct answer of a question while keeping it correct is refused as a second correct answer, although the result satisfies A1-A3 |
| Answers.UpdateChecksDiffer | backend/src/main/java/ch/quizinno/brainquest/services/AnswerService.java:94-120 | the written and the corrected check disagree iff the update sets `correct`, the 4-answer cap does not refuse it, the checked list has a correct answer and every correct one carries the updated answer's id; then only the written check refuses |
| Answers.AsWrittenAcceptedIsAcceptedExcludingSelf | backend/src/main/java/ch/quizinno/brainquest/services/AnswerService.java:118-120 | every update the written check accepts, the corrected check accepts too |
| Answers.ExcludingSelfAcceptsResave | backend/src/main/java/ch/quizinno/brainquest/services/AnswerService.java:118-120 | the corrected check accepts re-saving any stored answer with a new text, its own flag and its own question |
| Answers.ExcludingSelfKeepsCapAt | backend/src/main/java/ch/quizinno/brainquest/services/AnswerService.java:101-120 | with unique ids, an update the corrected check accepts keeps A1 and A2 for any one question |
| Answers.ExcludingSelfKeepsCap | backend/src/main/java/ch/quizinno/brainquest/services/AnswerService.java:101-120 | with unique ids, an update the corrected check accepts keeps A1 and A2 for every question |
| Answers.UpdateCanBreakCompleteness | backend/src/main/java/ch/quizinno/brainquest/services/AnswerService.java:100-122 | both checks accept clearing the flag of the only correct answer of a question with 4 answers (a request without `correct`), which breaks A3 |
| Answers.AnswerService.CreateAnswer | backend/src/main/java/ch/quizinno/brainquest/services/AnswerService.java:57-81 | in this order: 4 or more answers fails (TooManyAnswers); a correct answer next to a correct one fails (SecondCorrectAnswer); a wrong 4th answer with no correct one fails (NoCorrectAnswer). Every failure stores nothing. Otherwise exactly the new answer, with the next id, is appended; other questions' answers are unchanged and A1-A3 are kept |
| Answers.AnswerService.UpdateAnswer | backend/src/main/java/ch/quizinno/brainquest/services/AnswerService.java:90-123 | unknown id fails with NotFound and changes nothing; a move to a question that already has 4 answers fails; a correct answer is refused when an answer of the checked list other than itself is correct; otherwise only that row is rewritten as `Updated` says; ids stay unique and A1-A2 are kept |
| Answers.AnswerService.DeleteAnswer | backend/src/main/java/ch/quizinno/brainquest/services/AnswerService.java:130-136 | unknown id fails with NotFound and leaves the table; otherwise that row is removed, the count drops by one, the rest is kept in order, and A1-A3 are kept |
| Questions.FindQuestionIndex | backend/src/main/java/ch/quizinno/brainquest/services/QuestionService.java:105 | a found position holds a question with that id; not found iff no question has it |
| Questions.QuestionById | backend/src/main/java/ch/quizinno/brainquest/services/QuestionService.java:82-84 | a found question is stored and has that id; empty iff no stored question has the id |
| Questions.QuestionsOfMembers | backend/src/main/java/ch/quizinno/brainquest/services/QuestionService.java:155-157 | a question is listed iff it is stored with that topic id and difficulty |
| Questions.QuestionsOfTopicMembers | backend/src/main/java/ch/quizinno/brainquest/services/QuestionService.java:144-146 | a question is listed iff it is stored with that topic id |
| Questions.KeepPlayableMembers | backend/src/main/java/ch/quizinno/brainquest/services/QuestionService.java:181 | a question survives the first `removeIf` iff it was in the list and has at least 4 answers |
| Questions.KeepNotExcludedMembers | backend/src/main/java/ch/quizinno/brainquest/services/QuestionService.java:184 | a question survives the second `removeIf` iff it was in the list and its id is not excluded |
| Questions.RemoveUnplayable | backend/src/main/java/ch/quizinno/brainquest/services/QuestionService.java:181 | the loop keeps, in order, exactly the questions with at least 4 answers |
| Questions.RemoveExcluded | backend/src/main/java/ch/quizinno/brainquest/services/QuestionService.java:184 | the loop keeps, in order, exactly the questions whose id is not excluded |
| Questions.RemainingMembers | backend/src/main/java/ch/quizinno/brainquest/services/QuestionService.java:173-184 | after both filters a question remains iff it is stored under the topic and difficulty, has at least 4 answers and is not excluded |
| Questions.PickedIsEligible | backend/src/main/java/ch/quizinno/brainquest/services/QuestionService.java:205 | whatever index is drawn, the served question has the requested topic and difficulty, at least 4 answers and a non-excluded id |
| Questions.ShuffleAnswers | backend/src/main/java/ch/quizinno/brainquest/services/QuestionService.java:209 | the answers are rearranged in place and each occurs exactly as often as before |
| Questions.ServeQuestion | backend/src/main/java/ch/quizinno/brainquest/services/QuestionService.java:207-221 | the served DTO carries the question's id, text, difficulty and topic, and answer DTOs of a permutation of the given answers |
| Questions.FirstCorrectIndex | backend/src/main/java/ch/quizinno/brainquest/services/QuestionService.java:270-272 | the position found holds a correct answer with no correct answer before it; none is found iff no answer is correct |
| Questions.VerdictErrors | backend/src/main/java/ch/quizinno/brainquest/services/QuestionService.java:233-272 | each error, as an iff, in check order: missing answer id or player name; unknown question; a non-zero answer id that is not one of the question's answers; no correct answer. Otherwise the verdict succeeds, and answer id 0 passes the membership check |
| Questions.VerdictContents | backend/src/main/java/ch/quizinno/brainquest/services/QuestionService.java:270-276 | a verdict carries the question's id and info and the `intValue` of the first correct answer's id, and is correct iff the submitted id is that answer's id |
| Questions.TimeoutIsWrong | backend/src/main/java/ch/quizinno/brainquest/services/QuestionService.java:255-258 | with positive ids, answer id 0 on a question with a correct answer succeeds and is judged wrong |
| Questions.VerdictMatchesFlag | backend/src/main/java/ch/quizinno/brainquest/services/QuestionService.java:270-274 | with A2 and unique ids, the verdict is correct iff the submitted answer belongs to the question and is flagged correct |
| Questions.WrongsMembers | backend/src/main/java/ch/quizinno/brainquest/services/QuestionService.java:325-326 | an answer is among the wrong ones iff it is one of the answers and is not flagged correct |
| Questions.FiftyFifty | backend/src/main/java/ch/quizinno/brainquest/services/QuestionService.java:300-351 | unknown question fails with NotFound; no correct answer fails with NoSuchElement; no wrong answer fails with IllegalArgument (`nextInt(0)`); otherwise the joker succeeds |
| Questions.FiftyFiftyContents | backend/src/main/java/ch/quizinno/brainquest/services/QuestionService.java:321-350 | a joker shows the question's fields and exactly two answers: the first correct one and the chosen wrong one, correct first iff asked, with distinct ids when ids are unique |
| Questions.UpdatedQuestion | backend/src/main/java/ch/quizinno/brainquest/services/QuestionService.java:108-120 | the id is kept; text, info and difficulty are replaced only if given; the topic only if given with a different id |
| Questions.UpdatedQuestionProperties | backend/src/main/java/ch/quizinno/brainquest/services/QuestionService.java:117-120 | the topic id afterwards is the requested one (if any); a same-id topic keeps the stored topic; an empty request is the identity; applying a request twice equals applying it once |
| Questions.RemoveKeepsQuestionIdsUnique | backend/src/main/java/ch/quizinno/brainquest/services/QuestionService.java:132 | deleting a question keeps the question ids unique |
| Questions.QuestionService.GetQuizQuestion | backend/src/main/java/ch/quizinno/brainquest/services/QuestionService.java:166-222 | a missing topic or difficulty fails (MissingArgument); no stored question for the pair fails (NoQuestions); neither writes a highscore. After filtering, nothing left with an unknown topic fails (NotFound). Nothing left otherwise appends exactly one highscore (next id, player, score, difficulty, topic) and returns null. Otherwise the drawn remaining question is served with a permutation of its stored answers, and no highscore is written |
| Questions.QuestionService.CheckCorrectAnswer | backend/src/main/java/ch/quizinno/brainquest/services/QuestionService.java:231-291 | returns the verdict; exactly one highscore (player, score, the question's difficulty and topic) is appended iff the verdict is a wrong answer, and the highscores are unchanged otherwise |
| Questions.QuestionService.UpdateQuestion | backend/src/main/java/ch/quizinno/brainquest/services/QuestionService.java:103-123 | unknown id fails with NotFound and changes nothing; otherwise only that row is rewritten as `UpdatedQuestion` says |
| Questions.QuestionService.DeleteQuestion | backend/src/main/java/ch/quizinno/brainquest/services/QuestionService.java:130-136 | unknown id fails with NotFound and changes nothing; otherwise exactly that row is removed |
| Highscores.CompareInts | backend/src/main/java/ch/quizinno/brainquest/services/HighscoreService.java:132-134 | `Long.compare`/`Integer.compare`: negative iff less, zero iff equal |
| Highscores.CompareStringsMeaning | backend/src/main/java/ch/quizinno/brainquest/services/HighscoreService.java:133 | `compareTo` on names is negative iff the first is lexicographically smaller (first differing character, or a proper prefix), zero iff equal |
| Highscores.CompareStringsAntisymmetric | backend/src/main/java/ch/quizinno/brainquest/services/HighscoreService.java:133 | swapping the arguments of `compareTo` negates the result |
| Highscores.CompareMeaning | backend/src/main/java/ch/quizinno/brainquest/services/HighscoreService.java:131-138 | ID and SCORE compare numerically, PLAYER_NAME and TOPIC (the topic's name) lexicographically, DIFFICULTY by declaration order |
| Highscores.DirCompareZero | backend/src/main/java/ch/quizinno/brainquest/services/HighscoreService.java:140 | in both directions the comparator is 0 iff the two keys are equal |
| Highscores.DirCompareAntisymmetric | backend/src/main/java/ch/quizinno/brainquest/services/HighscoreService.java:140 | the directed comparator is antisymmetric |
| Highscores.SortSpecPermutes | backend/src/main/java/ch/quizinno/brainquest/services/HighscoreService.java:128-143 | the sorted list is a permutation of the input |
| Highscores.SortSpecSorted | backend/src/main/java/ch/quizinno/brainquest/services/HighscoreService.java:128-140 | adjacent elements are non-decreasing by the key with ASC and non-increasing with DESC |
| Highscores.SortSpecStable | backend/src/main/java/ch/quizinno/brainquest/services/HighscoreService.java:128-140 | the elements with any one key appear in input order, in both directions |
| Highscores.SortHighscores | backend/src/main/java/ch/quizinno/brainquest/services/HighscoreService.java:123-144 | the array is sorted in place into the stable sort of its old contents, which is a permutation of them and sorted |
| Highscores.LimitHighscores | backend/src/main/java/ch/quizinno/brainquest/services/HighscoreService.java:153-157 | a negative limit fails with IllegalArgument (`subList(0, negative)` has its end before its start); otherwise the result is the prefix of length min(limit, size) |
| Highscores.LimitBounds | backend/src/main/java/ch/quizinno/brainquest/services/HighscoreService.java:155 | a limit of 0 gives the empty list; a limit at least the size gives the whole list |
| Highscores.OfTopicAndDifficultyMembers | backend/src/main/java/ch/quizinno/brainquest/services/HighscoreService.java:111-113 | a highscore is listed iff it is stored with that topic id and difficulty |
| Highscores.UpdatedHighscore | backend/src/main/java/ch/quizinno/brainquest/services/HighscoreService.java:75-86 | the id is kept; name, difficulty and topic are replaced only if given; the score only if non-zero |
| Highscores.UpdatedHighscoreProperties | backend/src/main/java/ch/quizinno/brainquest/services/HighscoreService.java:78-80 | an update can never write a score of 0 where one was not; an empty request is the identity; applying a request twice equals applying it once |
| Highscores.FindHighscore | backend/src/main/java/ch/quizinno/brainquest/services/HighscoreService.java:72 | a found position holds a highscore with that id; not found iff no highscore has it |
| Highscores.RemoveKeepsIdsOk | backend/src/main/java/ch/quizinno/brainquest/services/HighscoreService.java:98 | deleting a highscore keeps the ids unique and below the next id |
| Highscores.HighscoreService.CreateHighscore | backend/src/main/java/ch/quizinno/brainquest/services/HighscoreService.java:59-61 | the record is stored unchanged apart from its new id, appended, with no validation |
| Highscores.HighscoreService.UpdateHighscore | backend/src/main/java/ch/quizinno/brainquest/services/HighscoreService.java:70-89 | unknown id fails with NotFound and changes nothing; otherwise only that row is rewritten as `UpdatedHighscore` says |
| Highscores.HighscoreService.DeleteHighscore | backend/src/main/java/ch/quizinno/brainquest/services/HighscoreService.java:96-102 | unknown id fails with NotFound and changes nothing; otherwise exactly that row is removed |
| HighscoreListing.OneFilterIsBadRequest | backend/src/main/java/ch/quizinno/brainquest/controllers/HighscoreController.java:74-80 | the response is a bad request iff exactly one of topicId and difficulty is given |
| HighscoreListing.SortedPrefix | backend/src/main/java/ch/quizinno/brainquest/controllers/HighscoreController.java:88-91 | cutting a sorted list keeps it sorted |
| HighscoreListing.ListingContents | backend/src/main/java/ch/quizinno/brainquest/controllers/HighscoreController.java:67-94 | a listing is the first min(limit, n) elements (all n without a limit) of the selection sorted by the requested key and direction (ID and ASC by default). It is sorted, part of the selection, and with both filters every entry has that topic and difficulty |
| HighscoreListing.NoLimitKeepsAll | backend/src/main/java/ch/quizinno/brainquest/controllers/HighscoreController.java:74-86 | without a limit the listing is a permutation of the selection |
| HighscoreListing.GetAllHighscores | backend/src/main/java/ch/quizinno/brainquest/controllers/HighscoreController.java:67-94 | the endpoint, which copies the selection into an array and sorts it in place, returns exactly the listing `ListingContents` describes |
| TopicStore.FindTopicIndex | backend/src/main/java/ch/quizinno/brainquest/services/TopicService.java:121 | a found position holds a topic with that id; not found iff no topic has it |
| TopicStore.FindTopicIndexUnique | backend/src/main/java/ch/quizinno/brainquest/services/TopicService.java:121 | with unique ids the lookup finds the one row with the id |
| TopicStore.TopicRepository.FindById | backend/src/main/java/ch/quizinno/brainquest/services/QuestionService.java:191 | a topic is found iff one is stored with that id, and the one found is stored and has it |
| Topics.Difficulties | backend/src/main/java/ch/quizinno/brainquest/services/TopicService.java:81-82 | one difficulty per question, position by position |
| Topics.DistinctMembers | backend/src/main/java/ch/quizinno/brainquest/services/TopicService.java:83 | `distinct` keeps every value and adds none |
| Topics.DistinctNoDuplicates | backend/src/main/java/ch/quizinno/brainquest/services/TopicService.java:83 | the result of `distinct` has no duplicates |
| Topics.DistinctKeepsFirstOccurrenceOrder | backend/src/main/java/ch/quizinno/brainquest/services/TopicService.java:83 | `distinct` lists values in the order of their first occurrence |
| Topics.AtMostThree | backend/src/main/java/ch/quizinno/brainquest/services/TopicService.java:81-84 | a duplicate-free list of difficulties has at most three entries |
| Topics.EligibleDifficultiesMeaning | backend/src/main/java/ch/quizinno/brainquest/services/TopicService.java:68-84 | a difficulty is listed for a topic iff the topic has a question of that difficulty with at least 4 answers; the list has no duplicates and at most 3 entries (so it is empty when no question qualifies) |
| Topics.UpdatedTopic | backend/src/main/java/ch/quizinno/brainquest/services/TopicService.java:124-129 | the id is kept; name and description are replaced only if given |
| Topics.UpdatedTopicProperties | backend/src/main/java/ch/quizinno/brainquest/services/TopicService.java:124-129 | an empty request is the identity; applying a request twice equals applying it once; a full request sets both fields |
| Topics.RemoveKeepsTopicIdsUnique | backend/src/main/java/ch/quizinno/brainquest/services/TopicService.java:141 | deleting a topic keeps the topic ids unique |
| Topics.TopicService.GetAllTopics | backend/src/main/java/ch/quizinno/brainquest/services/TopicService.java:59-90 | one DTO per stored topic, in repository order, each with the topic's id, name, description and eligible difficulties; nothing stored changes |
| Topics.TopicService.UpdateTopic | backend/src/main/java/ch/quizinno/brainquest/services/TopicService.java:119-132 | unknown id fails with NotFound and changes nothing; otherwise only that row is rewritten as `UpdatedTopic` says |
| Topics.TopicService.DeleteTopic | backend/src/main/java/ch/quizinno/brainquest/services/TopicService.java:139-145 | unknown id fails with NotFound and changes nothing; otherwise exactly that row is removed |
| PlayerName.LeadingWhitespace | frontend/utils/validatePlayerName.ts:9 | the length of the longest whitespace prefix |
| PlayerName.TrailingWhitespace | frontend/utils/validatePlayerName.ts:9 | the length of the longest whitespace suffix |
| PlayerName.Trim | frontend/utils/validatePlayerName.ts:9 | the trimmed name is empty or starts and ends with a non-whitespace character |
| PlayerName.TrimRemovesOnlyOuterWhitespace | frontend/utils/validatePlayerName.ts:9 | the trimmed name is a contiguous slice of the input, with only whitespace cut on each side |
| PlayerName.TrimmedIsFixed | frontend/utils/validatePlayerName.ts:9 | trimming a string that neither starts nor ends with whitespace gives it back |
| PlayerName.TrimKeeps | frontend/utils/validatePlayerName.ts:9 | every non-whitespace character of the input survives trimming |
| PlayerName.Utf16Length | frontend/utils/validatePlayerName.ts:16 | `.length` counts UTF-16 code units: between one and two per character |
| PlayerName.MatchesIffWordSequence | frontend/utils/validatePlayerName.ts:10 | the regular expression accepts a string iff it is one or more words of `[A-Za-z0-9._-]+` joined by single spaces |
| PlayerName.MatchesShape | frontend/utils/validatePlayerName.ts:10 | an accepted string consists of allowed characters and spaces, with no two spaces in a row |
| PlayerName.ValidatePlayerName | frontend/utils/validatePlayerName.ts:7-28 | valid iff no error iff a name is returned; the name is the trimmed input; fewer than 2 code units gives the length message (checked first); any other invalid result gives the allowed-characters message |
| PlayerName.ValidIffWords | frontend/utils/validatePlayerName.ts:16-27 | a name is valid iff its trimmed form has at least 2 code units and is a sequence of words separated by single spaces |
| PlayerName.DoubleSpaceIsInvalid | frontend/utils/validatePlayerName.ts:20-25 | two spaces in a row inside the trimmed name make it invalid with the allowed-characters message and no name |
| PlayerName.DisallowedCharIsInvalid | frontend/utils/validatePlayerName.ts:20-25 | any non-whitespace character outside `[A-Za-z0-9._-]`, such as '@', makes the name invalid, with no name |
| PlayerName.ValidationIsIdempotent | frontend/utils/validatePlayerName.ts:9-27 | validating a returned name again gives the same valid result |
| Chunking.Slice | frontend/utils/chunkArray.ts:14 | `slice(i, j)` has the length of the clamped interval |
| Chunking.ChunkArray | frontend/utils/chunkArray.ts:11-20 | for a positive integer size, the loop's pieces are exactly the chunks of the input, so the properties below apply to its result |
| Chunking.FlattenChunks | frontend/utils/chunkArray.ts:13-15 | concatenating the chunks in order gives the input back |
| Chunking.ChunkSizes | frontend/utils/chunkArray.ts:13-14 | every chunk but the last has exactly `size` elements; the last has between 1 and `size` |
| Chunking.ChunkCountBounds | frontend/utils/chunkArray.ts:13 | with c chunks, (c - 1) * size < n <= c * size |
| Chunking.ChunkCount | frontend/utils/chunkArray.ts:13 | there are ceil(n / size) chunks, none iff the input is empty |
| Chunking.OneChunkWhenSizeCoversInput | frontend/utils/chunkArray.ts:13-14 | when size >= n > 0 the only chunk is the input |
| Chunking.SingletonsWhenSizeIsOne | frontend/utils/chunkArray.ts:13-14 | with size 1 every element is a chunk of its own |

## Left out

- Persistence, transactions and Spring wiring. The repositories are `seq` fields in insertion order, and `findByQuestion`/`findByTopicIdAndDifficulty` return rows in that order.
- The store's own constraints are not modelled: foreign keys, unique names, cascades when a question or topic is deleted. Answers, questions and highscores can still refer to a deleted topic or question.
- Null ids and the NullPointerExceptions they would cause. Ids are plain integers handed out by a counter.
- Answers.AnswerService.CreateAnswer, Highscores.HighscoreService.CreateHighscore: the model assumes a create request carries no id, the only case in which the repository's `save` inserts a new row. When a request carries the id of a stored row, `save` merges it: that row is overwritten instead of a new one being appended (AnswerService.java:80, HighscoreService.java:60). The controllers pass request bodies through unchanged, so a client can trigger this. The merge case is not modelled.
- `createTopic`, `createQuestion`, `getTopicById`, `getQuestionById` and `getAllHighscores` are only modelled where the core uses them (as lookups and as the stored sequence). They are one-line repository calls.
- Question and highscore rows hold a copy of their topic. `updateTopic` does not rewrite those copies; a database join would show the new name.
- Concurrency: the check-then-act races between writers of the same question.
- Randomness. `new Random()` becomes the caller-supplied `pick`, `keys`, `skip` and `correctFirst`. The distribution is not modelled.
- Questions.ShuffleAnswers: the random comparator handed to `List.sort` is modelled as swaps driven by `keys`. Only the permutation is claimed, not the orders TimSort could produce.
- Highscores.SortHighscores: the stable sort is an insertion sort of the array rather than TimSort. It is proved equal to the stable sort the comparator defines, which is the only result a stable sort can give.
- Highscores.CompareStrings: `String.compareTo` compares UTF-16 code units. The model compares Dafny characters, which differs only for characters outside the Basic Multilingual Plane.
- The `SortBy` and `SortDir` enum files are not part of this model. They are the five-key and two-direction datatypes, and the "Invalid sortBy value" default branch cannot be reached with them.
- Highscores.LimitHighscores: a negative limit makes `subList(0, limit)` throw `IllegalArgumentException`, because the end bound is below the start bound. The model returns that error and does not floor the limit at 0.
- Answers.AnswerService.UpdateAnswer: follows the corrected check `UpdateViolationExcludingSelf`, not the code as written (see Findings). It differs from the source in exactly one case (`Answers.UpdateChecksDiffer`): an update with `correct` true, not refused by the cap, where every correct answer in the checked list carries the answer's own id. The source refuses that update with "only one correct answer"; the method accepts it. The as-written check stays in the model as `Answers.UpdateViolation`. Both read the list fetched at AnswerService.java:94 as the rows stored before the update, that is, detached copies. The source may instead run inside one persistence context, as its `@Transactional` tests do. Then that list holds the very instance that `setCorrect` changes at line 100, and the source refuses every update with `correct` true that keeps the question. That reading is not modelled.
- Chunking.ChunkArray: `size` is a positive integer. A size that is zero, negative or not an integer makes the loop run forever or produce fractional slice bounds, so it is required.
- PlayerName.Utf16Length: characters are Unicode scalar values. A string with unpaired surrogates cannot be represented.
- The logger calls in `chunkArray` and across the services.
- The other controllers, authentication, the front end's UI and network code, and TopicMapperImpl. TopicMapperImpl is a field copy folded into `GetAllTopics`.
- Questions.QuestionService.CheckCorrectAnswer: `intValue` truncation is modelled for correctAnswerId (QuestionMapper.IntValue). The submitted answer id is compared as a full integer, as `Long.equals` does.

## Findings

| source | as written | input that shows it | evidently intended | confidence | as-written member | corrected member |
|---|---|---|---|---|---|---|
| backend/src/main/java/ch/quizinno/brainquest/services/AnswerService.java:94-120 | the list checked for a second correct answer is read before the update, so it holds the answer's own old row | question 7 with answers (1, "Bern", correct) and (2, "Zurich", wrong); updating answer 1 to text "Bern (BE)" with `correct` true | an answer may stay correct when it is updated; only another correct answer should block it | medium (not executed) | Answers.UpdateRefusesResavingTheCorrectAnswer | Answers.ExcludingSelfAcceptsResave |

The as-written check is `Answers.UpdateViolation`. The corrected check is `Answers.UpdateViolationExcludingSelf`, which `Answers.AnswerService.UpdateAnswer` uses. `Answers.ExcludingSelfKeepsCap` proves that the corrected check keeps A1 and A2. `Answers.AsWrittenAcceptedIsAcceptedExcludingSelf` proves it accepts everything the written check accepted. Neither check keeps A3 (`Answers.UpdateCanBreakCompleteness`). That is by design, since updateAnswer does not check A3, so it is not a finding.
