# EXI.AI-Q quiz core, modelled in Dafny

EXI.AI-Q is a small Flask quiz server. It shows images from a folder and asks a
local language model (run as an `ollama` process) for one question per image.
The question is based on the image's embedded caption, which is read with
Pillow or exiftool. A second model run grades the learner's answer against a
JSON rubric of four categories plus a total, and the server turns that rubric
into a pass/fail status and HTML feedback. A companion script, `metadata.py`,
reads a pipe-delimited text file of captions and routes each image to a writer
for its format (exiftool for JPEG and GIF, PNG text chunks for PNG).

This project models the deterministic core of both files and proves what it
promises.

- `common.dfy` (`Common`): `Option` and `Result`.
- `text.dfy` (`Text`): the Python string operations the core relies on. These
  are `str.strip`, ASCII `str.lower`, `str.split`, `str.split(sep, 1)`,
  `str.rfind`, `startswith`/`endswith` and `str(int)`.
- `pydict.dfy` (`PyDict`): a Python `dict` with string keys. It is an
  insertion-ordered sequence of pairs with distinct keys. Assigning to an
  existing key keeps its position.
- `rubric.dfy` (`Rubric`, `RubricProperties`): the rubric check and the
  feedback builder of `evaluate_answer`, as pure functions, with lemmas about
  them.
- `images.dfy` (`Images`):
  - `load_images`: filter and sort;
  - Python's string order;
  - the caption priority chain of `extract_metadata`.
- `quiz.dfy` (`Quiz`): the stateful part of the server, as classes.
  - `App` holds the image list and the process-wide `evaluation_status`
    registry.
  - `Session` holds one browser session's fields.
  - `get_question`, `generate_new_question` and `evaluate_answer` are methods
    that update both in place.
- `metadata.dfy` (`Metadata`):
  - `read_metadata_from_txt`: nested loops, proved against a left-fold
    specification;
  - the Windows `os.path.splitext` rule and the `set_metadata` dispatch;
  - the exiftool argument lists and the PNG chunk split.

Some things the server calls are passed in as parameters instead:

- The model process is a function from a request and a call index to an
  outcome: an exit status with its output, or a timeout. The call index lets
  two runs with the same prompt differ.
- The caption extractor is a function from a file name to text.
- `json.loads` is a function from text to a parsed rubric or "not JSON".
- `uuid4` is a fresh id supplied by the caller.

A ghost record of model consultations stores the registry as it was at each
call. This shows that `evaluate_answer` marks the question before it grades.

Where the grading prompt (`app.py:130-145`) asks for something the code does not
check, the model follows the code:

- The maximum score is 10 × the number of keys other than "Total score" that
  arrived (`app.py:243-244`). It is not the prompt's fixed 40, and extra keys are accepted
  and raise it.
- Feedback lines follow the order the keys arrive in (`app.py:260-263`), not the
  prompt's category order.
- Points are never checked against the range 1..10 that the prompt asks for.

## Model

| member | source | states |
|---|---|---|
| Rubric.Categories | app.py:243 | the categories are the rubric's entries minus the total, never more than the entries |
| Rubric.CategoriesMembers | app.py:243 | an entry is a category exactly when it is in the rubric and its key is not "Total score" |
| Rubric.CategoriesAppend | app.py:243 | filtering out the total commutes with concatenation, so categories keep input order |
| Rubric.SumPoints | app.py:245 | the sum succeeds exactly when every category has integer points and then equals their sum; otherwise the first bad category's exception propagates |
| Rubric.IsAnswered | app.py:249-251 | `total >= max_total * 0.5` holds exactly when `2*total >= max_total` |
| Rubric.VerdictOf | app.py:253-258 | "Well done" iff `2*total >= max_total`; "partially correct" iff `2*total < max_total <= 4*total`; "insufficient" iff `4*total < max_total` |
| Rubric.Points | app.py:245 | `int(evaluation[k]["points"])` succeeds exactly for a category entry (an object with integer points); a bare integer raises "not subscriptable"; an entry whose lookup raises passes its exception on |
| Rubric.AsInt | app.py:246 | `int(evaluation["Total score"])` succeeds exactly for an integer score; an object raises `int()`'s type error; a value whose conversion raises passes its exception on |
| Rubric.AllPresent | app.py:239 | no contract of its own: all five required names are keys of the rubric; MissingKeyRejected and SuccessExactly state what its failure and success lead to |
| Rubric.MaxTotal | app.py:244 | no contract of its own: ten points per category; FourCategoryFacts and FiveCategoryGraded fix it at 40 and 50 for four and five categories |
| Rubric.Evaluate | app.py:230-263 | the "not valid JSON" failure comes exactly from an unparsable reply; a success comes only from an object holding all five required keys |
| Rubric.Check | app.py:243-263 | every failure is a raised exception; success holds iff every category's points read as an integer, the total reads as an integer equal to their sum, and every category has a justification |
| Rubric.CategoryLines | app.py:260-262 | no contract of its own: one `<p>` line per category, in input order; CategoryLinesAppend and FeedbackInInputOrder state its properties |
| Rubric.TotalLine | app.py:263 | no contract of its own: the "Total score" line with the total, the maximum and the verdict; WellDoneLine and InsufficientLine give its exact text |
| Rubric.FailureMessage | app.py:272-286 | an unparsable reply gets the fixed "valid JSON" sentence; a raised exception's reply text ends with the exception's own text |
| RubricProperties.MissingKeyRejected | app.py:232-240 | a rubric missing any of the five required keys fails with ValueError "Not all required categories were evaluated." |
| RubricProperties.SuccessExactly | app.py:239-263 | grading succeeds iff all keys are present, every category has integer points, the total is an integer equal to their sum, and every category has a justification |
| RubricProperties.MismatchRejected | app.py:245-247 | a total that differs from the category sum fails with the mismatch ValueError |
| RubricProperties.OnlyObjectsGraded | app.py:239-243 | only a JSON object can be graded; a number, boolean or null fails with the exception `k in evaluation` raises; an array or string fails with the missing-keys ValueError unless it holds all five names, and then with the exception `.keys()` raises |
| RubricProperties.UnjustifiedRejected | app.py:245-263 | a rubric that is complete and adds up but lacks a justification fails with the KeyError for 'justification' |
| RubricProperties.UnjustifiedMessage | app.py:282-286 | that failure's reply reads "Unknown error: 'justification'" |
| RubricProperties.RaisedMessageInjective | app.py:277-286 | two raised exceptions with the same reply text are the same exception |
| RubricProperties.GradedShape | app.py:249-263 | on success every category has a justification; answered iff `2*total >= max_total`; the feedback is the category lines followed by the total line with that verdict |
| RubricProperties.CategoryLinesAppend | app.py:260-262 | the category lines of a concatenation are the concatenation of the lines |
| RubricProperties.CategoryLinesCons | app.py:260-262 | a non-empty category list prints its first category's line, then the lines of the rest |
| RubricProperties.FeedbackInInputOrder | app.py:260-263 | a category's line sits between the lines of the entries before and after it, in input order |
| RubricProperties.FourCategoryFacts | app.py:243-244 | for the four-category rubric the grading model is asked for, the maximum is 40, the categories are the four in order, and all are justified iff the first one is |
| RubricProperties.PassMarkIsTwenty | app.py:249-251 | with four categories, a total of 20 is answered and 19 is not |
| RubricProperties.WellDoneScenario | app.py:249-263 | points 8, 7, 6, 5 with total 26 pass, and the feedback ends with the "[26/40]: Well done! ..." line |
| RubricProperties.InsufficientScenario | app.py:253-258 | points 2, 2, 2, 2 with total 8 fail with the "insufficient" verdict |
| RubricProperties.UnjustifiedScenario | app.py:245-263 | the asked-for rubric 8, 7, 6, 5 with total 26 and no first justification fails with "Unknown error: 'justification'"; with total 25 the mismatch ValueError comes first |
| RubricProperties.FourCategoryGraded | app.py:239-263 | the asked-for four-category rubric with a correct total is graded, is answered iff the total reaches 20, and its feedback ends with the total line out of 40 |
| RubricProperties.WellDoneLine | app.py:253-263 | the total line for 26 of 40 reads "[26/40]: Well done! ..." |
| RubricProperties.InsufficientLine | app.py:253-263 | the total line for 8 of 40 reads "[8/40]: The answer is insufficient." |
| RubricProperties.PointSumAppend | app.py:245 | the point sum of a concatenation is the sum of the parts' point sums |
| RubricProperties.FiveCategoryList | app.py:243-245 | a rubric with an extra "Bonus" key has five categories, their points add up with the bonus, and the maximum is 50 |
| RubricProperties.FiveCategoryGraded | app.py:239-251 | that five-key rubric with a correct total is graded and passes iff twice the total reaches 50 |
| RubricProperties.ExtraCategoryRaisesMaximum | app.py:243-251 | a fifth, unrequested category is accepted and raises the maximum to 50, so a total of 24 (a pass out of 40) is not answered |
| Images.ImageNames | app.py:26-27 | a name is kept iff it is listed and its lower-case form ends in .jpg, .jpeg, .png or .gif, each image name as often as it is listed; nothing is added |
| Images.NotAfterTotal | app.py:28 | Python's string order is total |
| Images.NotAfterAntisymmetric | app.py:28 | Python's string order is antisymmetric |
| Images.NotAfterTransitive | app.py:28 | Python's string order is transitive |
| Images.Insert | app.py:28 | inserting into a sorted list keeps it sorted and adds exactly that element |
| Images.SortNames | app.py:28 | the result is sorted and a permutation of the input |
| Images.SortedUnique | app.py:28 | two sorted permutations of the same names are equal, so the sorted order is determined |
| Images.LoadImages | app.py:24-29 | the image list is sorted, holds each image name as often as listed, and holds nothing else |
| Images.FirstTextKeyValue | app.py:66 | the value of the first key starting with "Text:", or none when there is no such key |
| Images.FirstTruthy | app.py:60-67 | the `or` chain yields a truthy candidate or the empty string |
| Images.FirstTruthyPicks | app.py:60-67 | the chain yields the first truthy candidate |
| Images.FirstTruthyNone | app.py:60-67 | with no truthy candidate the chain yields "" |
| Images.CaptionOf | app.py:60-68 | the caption is whitespace-stripped |
| Images.CaptionPriority | app.py:60-68 | when key i of ImageDescription, Description, XMP:Description, IPTC:Caption-Abstract, PNG:Comment holds non-empty text and every earlier one of the five is absent or falsy, the caption is key i's text, stripped |
| Images.StripValue | app.py:69 | `description.strip()` of text is stripped and a piece of that text; a value that is not text gives "" (the exception caught at app.py:70-72) |
| Images.CaptionFromTextKey | app.py:66-68 | failing those five, the first "Text:" key's value is used, even if it is empty |
| Images.ExtractMetadata | app.py:31-72 | the extracted description is whitespace-stripped |
| Images.Suffix | app.py:32 | `Path.suffix`: empty, or a dot and at least one further character, with no further dot, ending the name and shorter than it; non-empty exactly when the name's last dot is neither its first nor its last character |
| Images.SuffixRule | app.py:32 | the last dot's index lies strictly inside the name exactly when some dot strictly inside it has no dot after it |
| Images.OwnDescription | app.py:36-40 | a PNG's own text, when present, is stripped |
| Images.NoOwnDescription | app.py:37-41 | a PNG has no own text exactly when the chosen value (Description if truthy, else description) is absent, falsy, or not text, whose `.strip()` raises |
| Images.PngDescriptionWins | app.py:32-40 | a PNG's own non-empty Description text is used, whatever exiftool reports |
| Images.PngLowerCaseDescription | app.py:37-40 | without a usable Description, a PNG's lower-case "description" text is used |
| Images.ExifCaptionOtherwise | app.py:33-72 | a file that is not a PNG, a PNG Pillow cannot open, and a PNG without its own usable text all get the caption of exiftool's first record; a failed run or one returning no records gives "" |
| Images.NonTextDescriptionFallsThrough | app.py:37-44 | a truthy Description that is not text makes `.strip()` raise, and the caption then comes from exiftool |
| Quiz.SentinelLooksLikeAQuestion | app.py:92-99 | a timed-out generation yields the same text as a model that answered with the timeout sentence |
| Quiz.QuestionText | app.py:91-99 | exit code 0 gives the model's output stripped; a non-zero exit gives "Error during question generation."; a timeout gives the timeout sentence |
| Quiz.GradingText | app.py:155-163 | the grading reply is text exactly when the model exited with code 0, and then it is the model's output stripped; otherwise the error is the timeout sentence after a timeout and the error sentence after a non-zero exit |
| Quiz.Grade | app.py:223-286 | feedback is stored iff the status is answered or unanswered, and then the reply is that feedback with code 200; every other outcome is an Error with code 500; a grading-model failure's text is returned verbatim; for a text reply, feedback is stored iff the rubric evaluation succeeds, the stored feedback is the evaluation's, the status is answered iff the evaluation says so, and a failed evaluation's reply is its failure message |
| Quiz.GradeStatusName | app.py:223-286 | a graded submission's `status` string is "answered" or "unanswered" exactly when the code is 200, and otherwise "Error" with code 500 |
| Quiz.StatusNameInjective | app.py:216-286 | the four `status` strings of the reply are distinct |
| Quiz.MismatchReported | app.py:223-281 | a rubric whose total differs from the category sum is answered with "Valuation error: " and the mismatch text, status Error, code 500, and no feedback stored |
| Quiz.MissingKeyReported | app.py:223-281 | a rubric missing a required key is answered with "Valuation error: " and the missing-categories text, status Error, code 500, and no feedback stored |
| Quiz.NextIndex | app.py:183 | the next image index is in range |
| Quiz.IndexAfterSteps | app.py:181-184 | without wrap-around, k requests advance the index by k |
| Quiz.IndexAfterWraps | app.py:183 | from index i, `count - i` requests wrap around to image 0 |
| Quiz.IndexAfterAdd | app.py:181-184 | a + b requests are a requests followed by b requests |
| Quiz.RotationCoversAll | app.py:181-186 | within `count` consecutive requests every image is shown |
| Quiz.RotationPeriod | app.py:181-184 | after `count` requests the rotation is back at its starting index |
| Quiz.FirstImageShownLast | app.py:181-183 | a fresh session shows the first image only on its `count`-th request |
| Quiz.App.constructor | app.py:19-29 | at start-up the registry is empty and the image list is `load_images()` of the folder |
| Quiz.Session.constructor | app.py:181-199 | a new session holds none of the keys the server reads or writes |
| Quiz.IsEvaluated | app.py:214 | no contract of its own: `evaluation_status.get(id, False)`; EvaluatedIffPresent ties it to membership |
| Quiz.EvaluatedIffPresent | app.py:214-220 | while the registry holds only `True`, `evaluation_status.get(id, False)` is membership |
| Quiz.App.GetQuestion | app.py:177-206 | no images gives a server error and changes nothing; otherwise the index advances by one modulo the image count; the placeholder "Bild: name" replaces an empty caption; one model call; the question id, question, image and description are replaced, `last_evaluation` is removed, and the reply carries "/images/name" |
| Quiz.App.GenerateNewQuestion | app.py:101-121 | no current image (absent or empty) gives the 400 "No current image found." and changes nothing; otherwise "Image: name" replaces an empty caption; a second call is made only when the first result equals the current question; exactly the question and its id change |
| Quiz.App.EvaluateAnswer | app.py:208-286 | an id the registry marks true gets "already evaluated" with no model call and nothing changed; otherwise the id is marked true before the single grading-model call (the record shows the marked registry), no other entry changes, the reply is the grading outcome, and `last_evaluation` is written only on success |
| Quiz.GradeInto | app.py:222-286 | the grading step of `evaluate_answer`: the reply is the grading outcome, and `last_evaluation` is overwritten exactly when feedback is stored |
| Quiz.SubmitTwice | app.py:214-220 | two submissions under one id: the second is refused and the grading model runs at most once |
| Quiz.RegenerateTwice | app.py:101-121 | with a model that always gives the same answer, the first regeneration returns that question with the first id, asking once more only if it equals the question held before; the second then asks exactly twice with the same request, and the record is extended by exactly those calls |
| Quiz.BrowserSubmit | app.py:564-567 | the page's submission is keyed on the absent id, which is marked afterwards; once marked, every submission is refused without grading |
| Quiz.BrowserSecondQuestionRefused | app.py:564-567 | with the page's payload, the answer to the next question is refused as "already evaluated" |
| Quiz.SessionSubmit | app.py:288-295 | a submission under the session's own question id marks that id; a new id is graded with one model call |
| Quiz.SessionSecondQuestionGraded | app.py:288-295 | under the session's ids, a second question with a fresh id is graded, and both ids are marked |
| Metadata.ReadEntries | metadata.py:61-66 | the inner loop computes the left fold of the entry rule over the entries |
| Metadata.ReadMetadataFromTxt | metadata.py:53-68 | the reader's nested loops compute the left fold of the line rule over the file's lines |
| Metadata.KeyValue | metadata.py:65-66 | key and value are stripped and the key holds no `=` |
| Metadata.AddEntry | metadata.py:63-66 | an entry without `=` changes nothing; otherwise its key maps to its value, other keys keep theirs, no key is lost and at most one is added |
| Metadata.ParseEntries | metadata.py:62-66 | keys already present stay, and a line's map gains at most one key per entry |
| Metadata.AddLine | metadata.py:57-67 | a line without `|` once stripped changes nothing; otherwise its stripped first field maps to its entries' map, other names keep theirs, and at most one name is added |
| Metadata.ParseLines | metadata.py:56-67 | the result names at most one image per line |
| Metadata.LineWithoutPipeSkipped | metadata.py:57-59 | a line with no `|` after stripping adds nothing |
| Metadata.LaterLineReplaces | metadata.py:60-67 | a line with `|` maps its stripped name to exactly its own entries, replacing an earlier line's map, and leaves other names alone |
| Metadata.NoValidEntries | metadata.py:61-64 | a line whose entries all lack `=` maps its name to an empty map |
| Metadata.EntrySplitsAtFirstEquals | metadata.py:63-66 | an entry is split at its first `=`, so the value may contain `=`; key and value are stripped |
| Metadata.LaterEntryOverwrites | metadata.py:66 | within a line, the last entry for a key wins |
| Metadata.AddEntryWellFormed | metadata.py:63-66 | adding one entry to a well-formed map keeps every key and value stripped and every key free of `=` |
| Metadata.ParseEntriesWellFormed | metadata.py:62-66 | every key and value of a line's map is stripped, and no key contains `=` |
| Metadata.AddLineWellFormed | metadata.py:57-67 | adding one line to a well-formed result keeps every file name, key and value stripped and every key free of `=` |
| Metadata.ParseLinesWellFormed | metadata.py:56-67 | every file name, key and value in the result is stripped, and no key contains `=` |
| Metadata.Extension | metadata.py:43 | the extension is empty or starts with a dot, ends the path and has no further dot; it is non-empty exactly when some dot of the last path component follows a character other than a dot |
| Metadata.ExtensionRule | metadata.py:43 | the last dot starts an extension exactly when some dot of the last component follows a non-dot |
| Metadata.ExtensionWithinName | metadata.py:43 | the extension never contains a directory separator |
| Metadata.UpperCaseExtension | metadata.py:43 | "C.JPG" has extension ".JPG" |
| Metadata.LastDotCounts | metadata.py:43 | only the last dot starts the extension |
| Metadata.DirectoryDotIgnored | metadata.py:43 | a dot in a directory name gives no extension |
| Metadata.JpgArgs | metadata.py:19 | one argument per caption, then the path: caption count + 1 in all |
| Metadata.GifArgs | metadata.py:38 | one argument per caption, then the path: caption count + 1 in all |
| Metadata.JpgArgsRoundTrip | metadata.py:19 | for keys without `=`, each JPEG argument starts with "-" and gives back its caption pair when cut at the first `=` |
| Metadata.GifArgsRoundTrip | metadata.py:38 | for keys without `=`, each GIF argument starts with "-XMP:" and gives back its caption pair when cut at the first `=` |
| Metadata.ParsedCaptionsRoundTrip | metadata.py:65-66 | the captions read from a file always survive the trip into exiftool arguments |
| Metadata.TextChunks | metadata.py:28-30 | the `add_text` chunks are exactly the captions other than Description |
| Metadata.TextChunksCount | metadata.py:28-30 | there is one `add_text` chunk per caption other than Description |
| Metadata.PngChunks | metadata.py:26-30 | no contract of its own: Description's `add_itxt` chunk first, then one `add_text` chunk per other caption; PngChunksPartition states its properties |
| Metadata.PngChunksPartition | metadata.py:26-30 | one chunk per caption, each holding that caption's value; Description, if present, is the only `add_itxt` chunk; every other key is an `add_text` chunk |
| Metadata.Route | metadata.py:44-51 | .jpg and .jpeg get exactly the exiftool writer with the JPEG argument list, .png exactly the Pillow writer with the PNG chunks, .gif exactly the exiftool writer with the GIF argument list; any other extension is reported as unsupported |
| Metadata.SetMetadata | metadata.py:42-51 | the lower-cased extension of the path picks the writer: .jpg/.jpeg exactly the JPEG argument list, .png exactly the PNG chunks, .gif exactly the GIF argument list; it is reported as unsupported exactly when it is none of these |
| Metadata.UpperCaseRouted | metadata.py:43-45 | "C.JPG" goes to the JPEG writer |
| Metadata.WrittenFilesAreImages | metadata.py:43-51 | every file a writer is chosen for is one `load_images` lists |
| Metadata.DotFileListedButNotWritten | metadata.py:43-51 | a file named ".png" is listed by the quiz, but no writer is chosen for it |
| Metadata.DotFileListed | app.py:26-27 | ".png" passes the quiz's image filter |
| Metadata.DotFileHasNoExtension | metadata.py:43 | ".png" has no extension: its leading dot belongs to the name |
| PyDict.Put | metadata.py:66-67 | `d[k] = v` on an insertion-ordered dict: k then maps to v, every other key keeps its value, an existing key keeps its place and a new key goes last |
| PyDict.Get | metadata.py:66-67 | a lookup finds a value exactly when the key is present, and then it is the value stored under that key |
| Text.StripRemovesOnlySpace | metadata.py:57 | `str.strip` removes only whitespace, from each end |
| Text.JoinSplit | metadata.py:57 | joining the pieces of `str.split` with the separator gives back the text |
| Text.IntToStringInjective | app.py:263 | distinct integers print differently, so the total line names the total |

## Left out

- Flask routing, JSON request and response encoding, and session cookies are not modelled. A session is an object and a reply is a value. The `/submit-answer` route's delegation is left out: it builds a payload and ignores it.
- The `ollama` and `exiftool` subprocesses, their 60-second timeouts and `kill` are oracles. A model run is a function outcome. Failing to launch a process (an exception from `Popen`) is not modelled.
- Prompt wording is not modelled. A request holds only the fields the prompt embeds: the description and difficulty, or the question, answer and description.
- Text-level `json.loads` is an oracle returning a parsed rubric or "not JSON". Exiftool's list of records is given already decoded.
- A JSON reply that is not an object is kept only as far as `evaluate_answer` tells it apart. A number, boolean or null is a `Scalar`. An array or string is a `Collection` that records whether all five names occur in it. Each carries the exception Python raises for it: its text is supplied and not derived from the value.
- A justification is text or absent. A justification that is some other JSON value is printed with `str()` in the source; the model does not render such values.
- `int()` of a string or float is not modelled. A category's value is an object with integer points (`Category`), a bare integer whose subscript raises (`Score`), or one whose lookup raises (`Unreadable`). The total's value is an integer (`Score`), an object whose `int()` raises (`Category`), or one whose conversion raises (`Unreadable`). The feedback prints points as integers.
- `str.lower` maps only ASCII letters. Full Unicode case mapping is not modelled. `str.strip` uses exactly the characters for which `str.isspace()` holds.
- Pillow image opening and saving, PNG chunk encoding and the exiftool library session are represented by what they are given: a `Writer` value holding the argument list or the chunk list.
- `process_metadata_file` and the module-level script (`metadata.py:70-83`) are file-system glue (`os.path.join`, `isfile`) and are not modelled. Nor is reading the text file: it is given as its lines.
- Images.CaptionPriority: covers only captions whose earlier keys are absent or falsy. An earlier truthy value that is not text is picked by the `or` chain, its `.strip()` raises and the caption is ""; StripValue and ExtractMetadata model that path.
- `uuid4` randomness is a fresh id supplied by the caller.
- The HTML, CSS and JavaScript page is not modelled, apart from the submission payload it sends (`app.py:564-567`).
- Requests are served one at a time. Concurrent access to the unlocked registry is not modelled.
- Logging and `print` output are not modelled.
- `question` and `answer` missing from a request (`None` in a prompt) are not modelled. They are strings.

## Findings

| source | as written | input that shows it | evidently intended | confidence | as-written member | corrected member |
|---|---|---|---|---|---|---|
| app.py:564-567 | the page's payload sends the question and answer but no `question_id`, so `evaluate_answer` keys every submission on `None` | get a question, submit an answer, get the next question, submit again: the second answer is refused with "This question has already been evaluated." without grading, for every later question in any session | each question id is evaluated once, using the session's current question id (the payload `submit_answer` builds at `app.py:288-295`) | not executed | Quiz.BrowserSecondQuestionRefused | Quiz.SessionSecondQuestionGraded |
