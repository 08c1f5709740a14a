# Course Correct: client-side logic of the student-productivity app

This project models the client-side logic of the Course Correct React Native
app in Dafny. Each module covers one screen:

- **CourseNotes** (course notes):
  - the `created_at` sort;
  - the search and tag filter chain;
  - tag parsing for a new note and the deduplicated tag list;
  - the blank-content guard and the done-toggle payload.
- **TodoList** (to-do list):
  - the all / active / completed filter;
  - the ascending / descending sort, including the in-place sort of the state array under 'all';
  - the sort toggle, the blank-title guard and the status-toggle payload.
- **Quiz**:
  - HTML-entity decoding;
  - building each question's answer list;
  - the select → next → results walk with its score.
- **Search** (encyclopedia search):
  - the blank-query guard and the page offset;
  - has-next / has-previous;
  - removing markup from snippets.
- **Dashboard**: name normalisation, the avatar initials and the greeting's first name.
- **Planner**:
  - the task form: open-for-edit, reset, and save as an insert or an update;
  - the recurrence choices.

Three shared modules support them:

- **Text**: the JavaScript string operations the screens use, restricted to ASCII: `trim`, `\s`, case, `includes`, `split` and `join`.
- **StableSort**: the stable sort that `Array.prototype.sort` performs with a numeric comparator, plus `filter` and `map`.
- **Wrappers**: `Option`, `Result`, `Outcome` and the user id.

How the model represents the app's surroundings:

- The remote store and the signed-in user are parameters. A method returns the request it would send and whether a refresh follows.
- The clock is the integer `now`.
- The random shuffle is a parameter: a list of swaps.
- Screens whose state the handlers update step by step are classes, whose methods state the whole new state.
- The pure pipelines are functions with lemmas.

## Model

| member | source | states |
|---|---|---|
| StableSort.SortStable | screens/Course.js:47-51 | the sort by an integer key is stable: the elements sharing a key keep their input order |
| StableSort.FilterSortCommute | screens/Todo.js:94-103 | filtering then sorting gives the same list as sorting then filtering |
| StableSort.SortedUnique | screens/Todo.js:99-103 | when equal keys mean equal elements, two sorted permutations of the same items are the same list |
| StableSort.SortOppositeKeys | screens/Todo.js:99-103 | without ties, sorting by the negated key gives exactly the reverse of sorting by the key |
| Text.BlankIffAllSpace | screens/Course.js:74 | `!s.trim()` holds exactly when every character is white space |
| Text.ContainsIffOccurs | screens/Course.js:60-62 | `includes` holds exactly when the term occurs at some position |
| Text.JoinSplit | screens/Course.js:80 | joining the pieces of `split(',')` with ',' gives back the string |
| Text.SplitJoin | screens/Course.js:80 | splitting a ','-join of separator-free pieces gives back the pieces |
| CourseNotes.SortNotes | screens/Course.js:46-51 | the sorted copy is a permutation of the input, with `created_at` non-increasing for 'newest' and non-decreasing for 'oldest' |
| CourseNotes.SortNotesStable | screens/Course.js:46-51 | notes with equal `created_at` keep their input order |
| CourseNotes.SortNotesReverse | screens/Course.js:46-51 | when no two notes share a `created_at`, 'newest' is exactly the reverse of 'oldest' |
| CourseNotes.FilterNotesNoCriteria | screens/Course.js:54-71 | with a blank search and no selected tag, the visible list is exactly the sorted list |
| CourseNotes.FilterNotesMembership | screens/Course.js:54-71 | `FilterNotes` (with `TagSelected`, the truthiness test of the selected tag) shows a note iff it is stored, its lower-cased title, content or some tag contains the untrimmed lower-cased search (when the trimmed search is non-empty), and it carries the selected tag exactly (when one is selected) |
| CourseNotes.FilterNotesIsSortedSelection | screens/Course.js:54-71 | the visible list equals the sort of the notes that pass the combined search and tag test |
| CourseNotes.FilterNotesSubsequence | screens/Course.js:55-68 | the visible list is an order-preserving subsequence of the sorted list |
| CourseNotes.FilterNotesIdempotent | screens/Course.js:42-44 | re-running the filter effect on its own output changes nothing |
| CourseNotes.ParseTags | screens/Course.js:79-82 | every parsed tag is non-empty and has no white space at either end; the tag each piece gives is stated by ParseOnePiece |
| CourseNotes.ParseTagsAppend | screens/Course.js:79-82 | parsing keeps input order and duplicates: the tags of `a,b` are those of `a` followed by those of `b` |
| CourseNotes.ParseOnePiece | screens/Course.js:79-82 | a piece without a comma parses to nothing when it is blank and otherwise to its trimmed text, so " physics" gives "physics"; with the append law this fixes every parse |
| CourseNotes.ParseTwoPieces | screens/Course.js:79-82 | two comma-separated pieces that are not blank give their two trimmed tags in order, as "math, physics" gives "math" and "physics" |
| CourseNotes.ParseJoinedTags | screens/Course.js:79-82 | joining non-empty, trimmed, comma-free tags with ',' and parsing the result gives back the same list |
| CourseNotes.Dedup | screens/Course.js:126 | `Array.from(new Set(xs))` has no duplicates and the same members as `xs` |
| CourseNotes.AllTags | screens/Course.js:126 | the tag list has no duplicates and holds exactly the tags of the notes |
| CourseNotes.DedupFirstOccurrenceOrder | screens/Course.js:126 | the tag list is in order of first occurrence |
| CourseNotes.ToggleDone | screens/Course.js:103-107 | the update targets the note's id and writes the negation of `is_done` |
| CourseNotes.ToggleTwice | screens/Course.js:103-109 | toggling twice restores the row |
| CourseNotes.ToggleKeepsPosition | screens/Course.js:103-109 | a done toggle leaves every note at its place in the sorted list |
| CourseNotes.CourseScreen.constructor | screens/Course.js:10-18 | the initial state: empty lists, empty search, no tag, 'newest' |
| CourseNotes.CourseScreen.SetSearch | screens/Course.js:42-44 | typing a search re-derives the visible list |
| CourseNotes.CourseScreen.SetSortOrder | screens/Course.js:42-44 | changing the order re-derives the visible list |
| CourseNotes.CourseScreen.FetchNotes | screens/Course.js:20-36 | with a user and a successful read, the collection becomes the sorted copy and the visible list is re-derived; otherwise nothing changes |
| CourseNotes.CourseScreen.AddNote | screens/Course.js:73-101 | an insert is sent iff the content is not blank and a user is signed in (the title is not checked); it carries the parsed tags and `is_done` false; on success the form is cleared and the modal closed, otherwise the form is kept |
| CourseNotes.CourseScreen.ClearForm | screens/Course.js:95-98 | title, content and tags become empty and the modal closes; the notes, the filters and the shown list are unchanged |
| TodoList.SortTodos | screens/Todo.js:99-103 | the sorted list is a permutation, non-decreasing in `created_at` for 'asc' and non-increasing for 'desc' |
| TodoList.SortTodosReverse | screens/Todo.js:99-103 | when no two items share a `created_at`, 'desc' is exactly the reverse of 'asc' |
| TodoList.FilterTodosExact | screens/Todo.js:94-98 | under `FilterTodos`, 'completed' keeps exactly the completed items and 'active' exactly the others |
| TodoList.FilterTodosPartition | screens/Todo.js:94-98 | the 'active' and 'completed' counts, and their multisets, add up to those of 'all' |
| TodoList.FilteredTodosSortedPermutation | screens/Todo.js:94-103 | the displayed list is a sorted permutation of the filtered items |
| TodoList.FilteredTodosIsFilteredSort | screens/Todo.js:94-103 | `FilteredTodos`, the displayed list, equals the filter applied to the sorted items |
| TodoList.ToggledOrder | screens/Todo.js:143 | the sort toggle always changes the order |
| TodoList.ToggleOrderTwice | screens/Todo.js:143 | toggling twice restores the order |
| TodoList.ToggleTodo | screens/Todo.js:63-67 | the update targets the id and writes the negation of the current status |
| TodoList.ToggleTodoTwice | screens/Todo.js:63-73 | toggling twice restores the row |
| TodoList.ToggleKeepsPosition | screens/Todo.js:99-103 | a status toggle leaves every item at its place under the active sort |
| TodoList.TodoScreen.constructor | screens/Todo.js:17-21 | the initial state: no items, 'all', 'desc' |
| TodoList.TodoScreen.Render | screens/Todo.js:94-103 | under 'all' the state array itself is left sorted; under the other filters it is untouched; a second render shows the same list |
| TodoList.TodoScreen.SetFilter | screens/Todo.js:118-121 | only the filter changes |
| TodoList.TodoScreen.ToggleSortOrder | screens/Todo.js:141-143 | only the order changes, to the other one |
| TodoList.TodoScreen.FetchTodos | screens/Todo.js:23-37 | with a user and a successful read, the rows replace the collection; otherwise nothing changes |
| TodoList.TodoScreen.AddTodo | screens/Todo.js:43-61 | an insert is sent iff the title is not blank and a user is signed in; on success the field is cleared and the modal closed |
| Quiz.ReplaceAll | screens/Quiz.js:30-34 | a global literal replacement by a string no longer than the pattern never lengthens the text |
| Quiz.ReplaceAbsent | screens/Quiz.js:30-34 | a pattern whose first character does not occur changes nothing |
| Quiz.ReplaceEveryOccurrence | screens/Quiz.js:30-34 | the `g` flag: in text made of pattern-free pieces separated by the pattern, every occurrence is replaced, so the result is the same pieces separated by the replacement |
| Quiz.Decode | screens/Quiz.js:30-34 | the four replacements in source order never lengthen a string; what each entity becomes is stated by DecodeQuot, DecodeApos, DecodeAmp and DecodeRsquo |
| Quiz.DecodeWithoutAmpersand | screens/Quiz.js:30-34 | a string with no '&' decodes to itself |
| Quiz.DecodeDoubleEscaped | screens/Quiz.js:30-34 | for any tail without '&', `&amp;` followed by that tail passes the first two replacements untouched and leaves the third as `&` plus the tail, so only the `&rsquo;` replacement can still apply |
| Quiz.DecodeAmpQuot | screens/Quiz.js:31-33 | because `&quot;` is replaced before `&amp;`, `&amp;quot;` decodes only to `&quot;` |
| Quiz.DecodeAmpRsquo | screens/Quiz.js:33-34 | because `&rsquo;` is replaced after `&amp;`, `&amp;rsquo;` decodes all the way to ’ |
| Quiz.ReplaceOtherEntity | screens/Quiz.js:31-34 | a stage never touches a different entity that shares its leading '&': pieces separated by that entity come through unchanged |
| Quiz.DecodeQuot | screens/Quiz.js:31 | `&quot;` between pieces without '&' becomes `"` at every occurrence, and nothing else changes |
| Quiz.DecodeApos | screens/Quiz.js:32 | `&#039;` between pieces without '&' becomes `'` at every occurrence, and nothing else changes |
| Quiz.DecodeAmp | screens/Quiz.js:33 | `&amp;` between pieces without '&' or ';' becomes `&` at every occurrence, as "Tom &amp; Jerry" shows "Tom & Jerry", and nothing else changes |
| Quiz.DecodeRsquo | screens/Quiz.js:34 | `&rsquo;` between pieces without '&' becomes ’ at every occurrence, and nothing else changes |
| Quiz.DecodeAll | screens/Quiz.js:54 | every answer is decoded, position by position |
| Quiz.Shuffle | screens/Quiz.js:36-37 | the in-place shuffle leaves a permutation of the array |
| Quiz.ShuffledAnswers | screens/Quiz.js:54 | the answer list is a permutation of the decoded correct-then-incorrect list |
| Quiz.FormatQuestionAsWritten | screens/Quiz.js:51-55 | as written: question and answers decoded, `correct` stored undecoded |
| Quiz.AsWrittenOffersPlainCorrect | screens/Quiz.js:53-54 | as written, the stored `correct` is among the answers whenever decoding leaves it unchanged |
| Quiz.AsWrittenOffersCorrectIff | screens/Quiz.js:53-54 | as written, the stored `correct` is among the answers iff decoding leaves it unchanged or it equals a decoded wrong answer |
| Quiz.AsWrittenLosesCorrectAnswer | screens/Quiz.js:53-54 | as written, a correct answer `&amp;quot;` beside wrong answers without entities (any number of them, the usual three included) is not among the answers, so it can never score |
| Quiz.FormatQuestion | screens/Quiz.js:51-55 | corrected: the answers are a permutation of the decoded list, one more than the incorrect answers, and they include the decoded `correct` |
| Quiz.CorrectIsOffered | screens/Quiz.js:53-54 | a correctly formatted question offers its correct answer among one more answer than the wrong ones |
| Quiz.FormatAll | screens/Quiz.js:51-55 | every fetched question is formatted, in order, with the corrected formatter (see the Findings row) |
| Quiz.CorrectPicks | screens/Quiz.js:68-70 | the count of correct picks is at most the number of picks, and equal to it iff every pick is correct |
| Quiz.QuizScreen.Screen | screens/Quiz.js:83-146 | the results screen shows iff not loading, questions exist and `current >= questions.length`; the question screen has a current question |
| Quiz.QuizScreen.ScoreLine | screens/Quiz.js:140 | the score never exceeds the number of questions, and at the results it is full iff every answer was correct |
| Quiz.QuizScreen.constructor | screens/Quiz.js:13-18 | the initial state: the setup screen with score 0 |
| Quiz.QuizScreen.BeginFetch | screens/Quiz.js:40-45 | start or retry resets questions, score, current, selected and showAnswer and shows the spinner |
| Quiz.QuizScreen.CompleteFetch | screens/Quiz.js:47-62 | on a response every question is formatted by the corrected formatter; on a failure the list stays empty (setup screen); the spinner goes and the invariant holds |
| Quiz.QuizScreen.HandleSelect | screens/Quiz.js:65-71 | sets `selected` and `showAnswer`; the score rises by exactly 1 iff the answer equals the current `correct` |
| Quiz.QuizScreen.HandleNext | screens/Quiz.js:73-77 | `current` rises by 1, `selected` and `showAnswer` clear; the results show iff that was the last question |
| Search.FirstClose | screens/SearchScreen.js:76 | the index of the first '>' (or the length when there is none) |
| Search.StripTags | screens/SearchScreen.js:76 | stripping never lengthens the snippet; what is kept and what is removed is stated by StripKeepsChar, StripKeepsText and StripTagRemoved |
| Search.StripKeepsChar | screens/SearchScreen.js:76 | a character that does not open a match `<[^>]+>` is kept in front of the stripped rest |
| Search.StripKeepsText | screens/SearchScreen.js:76 | text without '<' before the snippet is kept unchanged in front of the stripped rest |
| Search.StripTagRemoved | screens/SearchScreen.js:76 | a match `<w>` at the front (w non-empty, without '>') is removed whole and the scan resumes after it |
| Search.StripOneTag | screens/SearchScreen.js:76 | markup between two stretches of text goes and both stretches stay, as "a<b>c" shows "ac" |
| Search.StripIsSubsequence | screens/SearchScreen.js:76 | the stripped snippet is a subsequence of the snippet |
| Search.StripWithoutOpen | screens/SearchScreen.js:76 | a snippet with no '<' is unchanged |
| Search.StripLeavesNoTags | screens/SearchScreen.js:76 | no match of `<[^>]+>` remains after stripping |
| Search.StripOfClean | screens/SearchScreen.js:76 | a snippet with no match is unchanged |
| Search.StripIdempotent | screens/SearchScreen.js:76 | stripping twice equals stripping once |
| Search.SearchScreen.constructor | screens/SearchScreen.js:12-16 | the initial state: offset 0, no hits, neither previous nor next offered |
| Search.SearchScreen.SetQuery | screens/SearchScreen.js:63 | only the query changes |
| Search.SearchScreen.FetchResults | screens/SearchScreen.js:18-23 | a blank query sends nothing and leaves results, offset and loading unchanged; otherwise results are cleared, loading is set and the offset becomes the requested one |
| Search.SearchScreen.CompleteFetch | screens/SearchScreen.js:25-38 | on success the page's hits and total replace the old ones; on failure the results are exactly the one 'Error' entry; loading ends |
| Search.SearchScreen.Search | screens/SearchScreen.js:66 | a new search starts at offset 0 with the results cleared and the spinner on, or changes nothing for a blank query; the offset stays a non-negative multiple of 10 and the total is kept |
| Search.SearchScreen.Previous | screens/SearchScreen.js:46-88 | offered only under `HasPrev` (offset > 0); for a non-blank query moves to offset − 10 with the results cleared and the spinner on, keeping the offset a non-negative multiple of 10 and the total |
| Search.SearchScreen.Next | screens/SearchScreen.js:46-92 | offered only under `HasNext` (offset + 10 < totalHits); for a non-blank query moves to offset + 10 with the results cleared and the spinner on, after which `HasPrev` holds |
| Dashboard.CollapseSpacing | screens/Dashboard.js:22 | `replace(/\s+/g, ' ')` leaves single plain spaces, and keeps white space at either end exactly where the input had it |
| Dashboard.NormalizeName | screens/Dashboard.js:22 | the normalised name has no white space at either end and single spaces inside |
| Dashboard.CollapseOfSingleSpaced | screens/Dashboard.js:22 | a single-spaced string is left unchanged by the collapse |
| Dashboard.NormalizedIsFixed | screens/Dashboard.js:22 | a normalised name is its own normalisation |
| Dashboard.NormalizeIdempotent | screens/Dashboard.js:22 | normalising twice equals normalising once |
| Dashboard.CollapseKeepsText | screens/Dashboard.js:22 | the collapse keeps every non-space character, in order |
| Dashboard.TrimKeepsText | screens/Dashboard.js:22 | the trim keeps every non-space character, in order |
| Dashboard.NormalizeKeepsText | screens/Dashboard.js:22 | normalisation changes only white space: the non-space characters stay, in order |
| Dashboard.RunsAreWords | screens/Dashboard.js:22 | the visible runs of a name, defined independently of the collapse, are non-empty and hold no space |
| Dashboard.CollapseTrimmedIsJoin | screens/Dashboard.js:22 | on a trimmed string, each white-space run becomes exactly one space: the collapse is the visible runs joined by ' ' |
| Dashboard.RunsOfTrim | screens/Dashboard.js:22 | trimming does not change the visible runs |
| Dashboard.NormalizeIsJoinedRuns | screens/Dashboard.js:22 | the normalised name is exactly the visible runs of `full_name` joined by single spaces |
| Dashboard.WordsOfNormalized | screens/Dashboard.js:22-25 | a name is blank iff it has no runs, and otherwise `split(' ')` of the normalised name gives back exactly its runs |
| Dashboard.WordsNonEmpty | screens/Dashboard.js:25 | the words of a non-empty normalised name are non-empty |
| Dashboard.FirstChar | screens/Dashboard.js:26 | `n[0]` joined into a string is one character, or nothing for an empty word |
| Dashboard.Initials | screens/Dashboard.js:25-26 | there are at most two initials |
| Dashboard.InitialsOfWords | screens/Dashboard.js:25-26 | for a non-empty normalised name, the initials are the upper-cased first letters of the first two words (of the only word when there is one) |
| Dashboard.FirstName | screens/Dashboard.js:60 | the greeting's first name contains no space |
| Dashboard.FirstNameIsFirstWord | screens/Dashboard.js:60 | the first name is non-empty and is the whole name or the part before its first space |
| Dashboard.LoadProfile | screens/Dashboard.js:12-28 | nothing is set without a user, a profile or a non-empty `full_name`; otherwise the header holds the normalised name, which is the visible runs joined by single spaces, and the initials of that name (at most two) |
| Dashboard.HeaderOfRuns | screens/Dashboard.js:22-27 | for a non-blank name, the initials are the upper-cased first letters of its first two visible runs and the greeting's first name is its first run |
| Dashboard.LoadedGreeting | screens/Dashboard.js:21-27 | a name that is all white space leaves name and initials empty; any other name is greeted by `Greeting` (line 60) with its first word |
| Planner.RecurrenceValue | screens/Planner.js:215-218 | every recurrence is stored as one of none / daily / weekly / monthly |
| Planner.ParseRecurrence | screens/Planner.js:215-218 | reading a stored value back yields a recurrence only for the four picker values |
| Planner.RecurrenceRoundTrip | screens/Planner.js:215-218 | each choice reads back as itself |
| Planner.RecurrenceValueInjective | screens/Planner.js:215-218 | distinct choices have distinct stored values |
| Planner.RecurrenceOrNone | screens/Planner.js:108 | a missing recurrence reads as 'none' |
| Planner.SaveRequestFor | screens/Planner.js:64-81 | the request is an update of the edited id iff `Editing` holds, i.e. `editTaskId` is set and truthy (line 72), otherwise an insert; both carry the same payload |
| Planner.PlannerScreen.constructor | screens/Planner.js:20-26 | the initial state: no tasks, modal closed, form reset |
| Planner.PlannerScreen.FetchTasks | screens/Planner.js:34-49 | with a user and a successful read the rows replace the list; otherwise the list is kept |
| Planner.PlannerScreen.OpenModal | screens/Planner.js:169 | the Add Task button only opens the modal |
| Planner.PlannerScreen.CloseModal | screens/Planner.js:223 | Cancel only closes the modal and keeps the form |
| Planner.PlannerScreen.EditForm | screens/Planner.js:179-219 | the form fields take the values entered |
| Planner.PlannerScreen.OpenEditModal | screens/Planner.js:105-111 | the task's title, datetime and id fill the form, a missing recurrence becomes 'none', and the modal opens |
| Planner.PlannerScreen.ResetForm | screens/Planner.js:113-118 | empty title, the current time, 'none', no edited task |
| Planner.PlannerScreen.HandleSave | screens/Planner.js:55-90 | a blank title or no user sends nothing and changes nothing; otherwise it sends the update-or-insert of the form's payload; on success it refreshes, closes the modal and resets the form; on error the form is kept |

## Left out

- The remote store (auth, table reads and writes, delete calls) is left out. It is foreign library code, so the user and each response are method parameters. The delete handlers (`deleteNote`, `deleteTodo`, `deleteTask`) only call the store and refresh, so they are not modelled.
- The trivia and encyclopedia HTTP requests are left out because they are network calls. So are JSON decoding, `encodeURIComponent`, opening an article URL, and the category and difficulty pickers, which only shape the request URL. A malformed response that makes the source throw is modelled as the error response.
- Quiz.FormatAll: formats with the corrected `FormatQuestion`, which decodes `correct`. The source stores the raw `correct_answer` (see Findings), and that behaviour is modelled only by `Quiz.FormatQuestionAsWritten` and the lemmas about it.
- Quiz.QuizScreen.CompleteFetch: stores questions through `Quiz.FormatAll`, so the screen runs the corrected formatting. A raw `correct_answer` such as "Tom &amp; Jerry" is stored decoded here but raw by the source.
- Quiz.Shuffle: the random comparator's distribution is not modelled. The random order is a list of swaps, so the model states only that the answers are some permutation.
- Date parsing, `toISOString` and locale date formatting are left out. Times are integers, and `new Date()` in the form reset is the parameter `now`.
- Overlapping fetches and the order in which asynchronous responses arrive are concurrency and are left out. Each fetch is a begin step followed by a completion.
- White space, `toLowerCase` and `toUpperCase` cover ASCII only. Unicode case mapping and the non-ASCII members of `\s` are not modelled.
- Rendering, styles, navigation and the date picker's visibility flag are not modelled.
- Nullable note columns (`title || ''`, `content || ''`, `tags || []`) are stored as their defaults. Every access in the modelled code goes through the default.
- CourseNotes.CourseScreen: nothing in the screen assigns `selectedTag`, so it stays null. The model still keeps it as a field, and the filter lemmas cover every value it could take.
- TodoList.TodoScreen.Render: the in-place sort of the `todos` array is modelled as reassigning a sequence field. The aliasing between the state array and the rendered list is not modelled beyond that.
- Planner: task ids are integers, and 0 is the only falsy id. Stored `recurring` values outside the four picker values are not modelled.

## Findings

| source | as written | input that shows it | evidently intended | confidence | as-written member | corrected member |
|---|---|---|---|---|---|---|
| screens/Quiz.js:53 | `correct` keeps the raw `correct_answer`, but the answers are the decoded strings, and `handleSelect` compares an answer with `correct` | `correct_answer` "&amp;quot;" with wrong answers free of entities: it is offered only as "&quot;", so no choice equals `correct` and the question can never score (Quiz.AsWrittenLosesCorrectAnswer; in general Quiz.AsWrittenOffersCorrectIff) | `correct` decoded like the answers, so the right choice scores and is highlighted | high; not executed | Quiz.FormatQuestionAsWritten | Quiz.FormatQuestion |
