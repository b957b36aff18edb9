# StudyHub question pipeline, modelled in Dafny

StudyHub turns certification-exam discussion pages into a practice site. It has five parts, and each one is modelled here.

- **The scraper.** `scraper_selenium.py` reads each page. It picks the question container. It copies the stem paragraph, with image tags made responsive and every other tag stripped of its attributes. It collects the lettered choices, minus badges, vote counts and buttons. It reads the community vote widget to derive a suggested answer: the best multi-letter vote, else the best single-letter vote, else a lone visible letter, then sorted and de-duplicated. From that it derives how many letters a student must pick. A page that fails to load still produces a record, marked with the error.
- **The JSON API.** `backend/app.py` serves those records per exam. Each exam has at most one study session in progress. A submission is judged by comparing the set of picked letters with the letters of the suggested answer. Each question can be answered once per session. Starting anew finalises or abandons the session in progress.
- **The server-rendered site.** `app/routes.py` does the same for a single question file. It keeps the session in the browser's cookie, next to a tracker of answered questions.
- **The single-choice service.** `app/services.py` compares one letter with the stored answer string and reports an accuracy over all answers.
- **The browser question page.** `question.component.ts` lets a student toggle letters up to the question's count, submits them, and shows the verdict.

The model is split into modules:

- `Wrappers` and `Strings`: options, trimming, substring search, decimal numerals, sorting.
- `Html`: the parsed tree and the `find`, `find_all`, `find_next_sibling`, `decompose` and `get_text` queries the scraper uses.
- `Sanitizer`, `Options`, `Consensus` and `Scraper`: one record per page.
- `Scoring`: the three verdict rules.
- `Store`: sessions and stored answers.
- `Backend.Api`, `Routes.App`, `Services.App` and `QuestionView.Component`: the four stateful front ends, as classes whose methods update their fields.

The databases are sequences of rows: a row's id is its position, and a later row is a newer one. The session invariants (one open session per exam, completed sessions carry their final counts, abandoned ones have no answers, one answer per question and session) are proved to be kept by every transition.

## Model

| member | source | states |
|---|---|---|
| Html.FindAll | scraper_selenium.py:65 | `find_all`: a node is listed exactly when it lies in the forest and matches the filter |
| Html.FindAllInDocumentOrder | scraper_selenium.py:65 | `find_all` lists the matching nodes in document order: the pre-order listing of the forest with the other nodes left out |
| Html.FindFirst | scraper_selenium.py:55-62 | `find`: nothing exactly when no node of the forest matches; otherwise a matching node of the forest |
| Html.FindFirstIsEarliest | scraper_selenium.py:55-62 | `find` returns the earliest matching node in document order |
| Html.FirstAmong | scraper_selenium.py:121-129 | a matching node of the given list is reported, and nothing exactly when none of the list matches |
| Html.FirstAmongIsEarliest | scraper_selenium.py:121-129 | the node reported comes before every other match in the list |
| Html.NextSiblingNeedsAnchor | scraper_selenium.py:122-127 | `find_next_sibling` on a missing anchor finds nothing |
| Html.TopLevelMatchIsFound | scraper_selenium.py:121 | a matching element of the forest is always listed by `find_all` |
| Html.NoMatchNoSibling | scraper_selenium.py:121-127 | when nothing in the forest matches, no later sibling of an anchor matches either |
| Html.NoMatchBelowFound | scraper_selenium.py:124-129 | when nothing in the container matches, nothing below a found element matches |
| Html.TextsAppend | scraper_selenium.py:109 | the text stream of a concatenation is the concatenation of the streams |
| Html.JoinStrippedAppend | scraper_selenium.py:109 | `get_text(strip=True)` distributes over concatenation of the pieces |
| Html.RemoveFirstCutsItsText | scraper_selenium.py:94-97 | `decompose` of the first match cuts exactly its own text out of the stream, keeping what was before and after in order |
| Html.PruneRemovesAll | scraper_selenium.py:99-107 | after one decompose pass nothing matching its filter is left |
| Html.PruneAddsNothing | scraper_selenium.py:99-107 | a decompose pass never makes a match for another filter appear |
| Html.PruneEachRemovesAll | scraper_selenium.py:99-107 | after all passes no element matching any of the filters remains |
| Html.PruneEachKeepsAbsence | scraper_selenium.py:99-107 | the passes keep the absence of any filter's match |
| Sanitizer.ResponsiveStyleHasBoth | scraper_selenium.py:68-71 | the rewritten style contains both `max-width:100%` and `height:auto` |
| Sanitizer.ResponsiveStyleOfNothing | scraper_selenium.py:67-71 | the style is read after the attributes were narrowed, so it is always exactly `max-width:100%;;height:auto` |
| Sanitizer.NarrowImageAttrs | scraper_selenium.py:67 | only `src`, `alt` and `class` survive, with their values unchanged |
| Sanitizer.SanitizeImageSpec | scraper_selenium.py:66-73 | an image keeps the allowed attributes, gets the fixed style, and a `/assets/` source becomes absolute |
| Sanitizer.SanitizeTagSpec | scraper_selenium.py:65-77 | images are rewritten, `pre` is left alone, every other tag loses all its attributes; name and children are kept |
| Sanitizer.SanitizeTagIdempotent | scraper_selenium.py:65-77 | sanitising twice is the same as sanitising once |
| Sanitizer.ImageIdempotent | scraper_selenium.py:66-73 | rewriting an image twice is the same as once |
| Sanitizer.AbsoluteIsNotRelative | scraper_selenium.py:72-73 | an absolutised source never starts with `/assets/` again |
| Sanitizer.SanitizeAllSettles | scraper_selenium.py:65-77 | every tag of a sanitised list is its own sanitised form, so a second pass changes nothing |
| Sanitizer.TagsOfSanitized | scraper_selenium.py:65-77 | the tags of the sanitised tree are the sanitised tags of the tree, in document order |
| Sanitizer.SanitizeKeepsText | scraper_selenium.py:65-78 | sanitising changes no text of the stem |
| Sanitizer.SanitizeInPlace | scraper_selenium.py:65-77 | the loop over `find_all(True)` leaves each tag equal to its sanitised form |
| Sanitizer.StemOfSpec | scraper_selenium.py:61-80 | no stem paragraph gives the fixed placeholder; otherwise the sanitised copy of the paragraph |
| Options.ItemsOf | scraper_selenium.py:83-87 | the items are all the `li.multi-choice-item` elements below the first `ul` of the first choices box, in document order; none when the box or the list is missing |
| Options.CleanLetter | scraper_selenium.py:96 | the cleaned letter has no `.`, only characters of the raw letter and no white space at either end |
| Options.ChoiceOfSpec | scraper_selenium.py:88-115 | an item yields a choice exactly when both its cleaned letter and its text are non-empty; the choice holds the raw letter, the cleaned one and the text |
| Options.NoLetterNoChoice | scraper_selenium.py:90-97 | without a letter span the cleaned letter is empty, so the item is dropped |
| Options.ResidualHasNoDecoration | scraper_selenium.py:99-107 | after the cleanup the item holds no badge, vote count, bar or button |
| Options.LetterIsNotText | scraper_selenium.py:94-109 | the letter span's text is cut out of the option text and nothing else is |
| Options.ChoicesComeFromItems | scraper_selenium.py:88-115 | every choice comes, in order, from its own item |
| Options.ChoicesWellFormed | scraper_selenium.py:110-115 | every extracted choice has a non-empty letter and text |
| Options.ExtractChoices | scraper_selenium.py:82-115 | the loop appends exactly the choices of the items, in order |
| Consensus.LocateWidgetIsFirst | scraper_selenium.py:121-129 | the fallbacks are dead: the widget is the first `vote-distribution-bar` anywhere in the container |
| Consensus.BarsOf | scraper_selenium.py:133 | one bar per `vote-bar` element of the widget, in document order, each holding that element's stripped text and style |
| Consensus.RunSpec | scraper_selenium.py:136-140 | a greedy character-class run is all of its class and stops at the end or at a foreign character |
| Consensus.RunIsMaximal | scraper_selenium.py:136-140 | a run that ends where the class ends is the greedy run |
| Consensus.PercentAtComplete | scraper_selenium.py:136-138 | whenever `\s*\((\d+)%\)` can match, it is found and the number read |
| Consensus.PercentAtSound | scraper_selenium.py:136-138 | a percentage is reported only where the pattern matches |
| Consensus.MultiAtLetters | scraper_selenium.py:136 | a multi-letter vote has at least two capital letters |
| Consensus.MultiAtComplete | scraper_selenium.py:136 | every way the multi pattern can match at a position gives the reported vote |
| Consensus.FirstMultiFrom | scraper_selenium.py:148 | the search position lies in the searched range |
| Consensus.FirstMultiFromSpec | scraper_selenium.py:148 | `re.search` returns the leftmost matching position |
| Consensus.SearchMultiSpec | scraper_selenium.py:148 | no result exactly when the pattern matches nowhere, else the leftmost match |
| Consensus.SingleAt | scraper_selenium.py:138 | a single vote is the first character, a capital letter |
| Consensus.SingleAtComplete | scraper_selenium.py:138 | whenever the anchored single pattern matches, the vote is reported |
| Consensus.VisibleLetter | scraper_selenium.py:140 | a visible letter is a capital letter |
| Consensus.VisibleLetterExact | scraper_selenium.py:140 | exactly the strings that are one letter padded by white space are reported |
| Consensus.SecondFlexTestIsDead | scraper_selenium.py:173-175 | the `display: flex` test on a space-free string never holds |
| Consensus.BestOfIsFirstMaximum | scraper_selenium.py:146-154 | a strictly-greater scan keeps the first vote with the highest percentage, and nothing only without votes |
| Consensus.SuggestionIsSortedLetters | scraper_selenium.py:185 | the suggestion is a strictly increasing string of capital letters |
| Consensus.SuggestionEmptyIffNoVote | scraper_selenium.py:156-185 | no suggestion exactly when no bar carries a vote of any tier |
| Consensus.RawEmptyIffNoVote | scraper_selenium.py:156-183 | no raw letters exactly when no bar carries a vote of any tier |
| Consensus.BestSingleHasLetter | scraper_selenium.py:165-171 | the best single vote has one letter |
| Consensus.BestMultiHasLetters | scraper_selenium.py:148-154 | the best multi vote has at least two letters |
| Consensus.ResolveSuggestion | scraper_selenium.py:143-185 | the two scans with their `-1` and empty-string state compute the suggestion |
| Consensus.ScanMultis | scraper_selenium.py:143-154 | the first scan keeps the best multi vote's letters and percentage |
| Consensus.ScanSingles | scraper_selenium.py:159-183 | the second scan yields the best single letter, else the first visible lone letter |
| Scraper.ContainerSpec | scraper_selenium.py:55-59 | the container is the first `question-body`, else the first `discussion-question-body`, else the page |
| Scraper.IdFallsBackToIndex | scraper_selenium.py:211 | the record id is the source's question id, else the decimal position |
| Scraper.FallbackIdsDiffer | scraper_selenium.py:211 | two records without a question id at different positions get different ids |
| Scraper.AnswerCountRule | scraper_selenium.py:192-206 | the count is the suggestion's length; without one 2 for five options, 3 for six, else 1; always at least 1 |
| Scraper.AnswerCountIsDistinctLetters | scraper_selenium.py:185-198 | the count equals the number of distinct suggested letters |
| Scraper.RecordOfSpec | scraper_selenium.py:210-218 | the record carries the id, the url, the title or `N/A`, the sanitised stem, the choices and the suggestion read from the page's container, and no error; the options are well formed, the suggestion is sorted distinct capitals, and the count is its length, or the option-count fallback without one |
| Scraper.FailureRecordSpec | scraper_selenium.py:258-267 | a failed page gives a record with the reference's id and url, its title or the failure title, a paragraph stem ending in the error message, the message as its error, no choices, no suggestion and one answer |
| Scraper.ExtractQuestionData | scraper_selenium.py:47-218 | the extraction computes exactly the record of the page |
| Scraper.ProcessPage | scraper_selenium.py:251-267 | a fetched page gives its record, a failure gives the failure record |
| Scraper.Batch | scraper_selenium.py:251-267 | one record per reference |
| Scraper.BatchAt | scraper_selenium.py:251-267 | record `i` is the outcome of reference `i` at position `i` |
| Scraper.ScrapeAll | scraper_selenium.py:237-267 | an empty reference list stops the run; otherwise the records of all references, in order |
| Scraper.BatchErrorsMarkFailures | scraper_selenium.py:251-267 | a record has an error exactly when its page failed; url, id and a positive count always set |
| Scoring.SiteAgreesWithApi | app/routes.py:211-235 | the site's verdict with its extra `elif` equals the API's verdict |
| Scoring.IsCorrectMeaning | backend/app.py:283-293 | correct means a non-blank key and distinct picks naming exactly the key's letters, of the expected count |
| Scoring.MismatchedKeyNeverCorrect | backend/app.py:283-293 | a key whose letter count differs from the expected count never accepts |
| Scoring.AnswerShown | app/services.py:93 | the key shown is empty or the non-blank key itself |
| Scoring.LegacyCorrectShowsChoice | app/services.py:76-93 | a correct single-choice answer shows the chosen letter as the key |
| Scoring.LegacyAgreesOnOneLetter | app/services.py:76-79 | for one-letter keys and one pick the single-choice rule and the multi-choice rule agree |
| Scoring.Singletons | backend/app.py:283-293 | one pick per letter of the key |
| Scoring.SortedKeyAccepted | backend/app.py:283-293 | picking each letter of a sorted key once is accepted |
| Scoring.SuggestionIsAccepted | scraper_selenium.py:185-198 | picking the letters of a scraped suggestion is judged correct with the scraped count |
| Scoring.BlankKeyNeverCorrect | backend/app.py:285-286 | a blank key rejects every answer under both rules |
| Store.NewSession | backend/app.py:85-93 | a new session is in progress with no total, correct count or score |
| Store.RightAtMostAnswered | backend/app.py:150-170 | correct answers of a session never exceed its answers |
| Store.AnsweredPositive | backend/app.py:324-325 | a session has answers exactly when a stored response names it |
| Store.CountsAppend | backend/app.py:295-305 | storing a response adds one to its session's counts and nothing to others |
| Store.ScoreBounds | backend/app.py:156-163 | the score is within 0..100, 0 iff nothing correct, 100 iff all correct |
| Store.FinalizedSpec | backend/app.py:150-170 | finalising marks completed and records the stored answer count, the correct count (never more) and the score of the two, a percentage between 0 and 100 |
| Store.FindResponseSpec | backend/app.py:260-264 | the lookup finds exactly the stored answer of that session and question |
| Store.FindResponseAppend | backend/app.py:260-305 | after storing, the lookup finds the new answer for its own pair |
| Store.StoreKeepsOneAnswerEach | backend/app.py:260-305 | storing only unanswered pairs keeps one answer per session and question |
| Store.LatestOpenSpec | backend/app.py:132-148 | the newest in-progress session of the exam, or none |
| Store.FirstOpenSpec | backend/app.py:336-371 | the first-inserted in-progress session of the exam, or none |
| Store.OneOpenLookupsAgree | backend/app.py:132-371 | with one open session per exam both lookups agree |
| Backend.Usable | backend/app.py:119 | filtering never adds questions |
| Backend.UsableSpec | backend/app.py:119 | a question is served exactly when it has no error and at least one option |
| Backend.ExamQuestionsSpec | backend/app.py:104-129 | an unknown exam, or a known one whose file is missing or unreadable, gives no questions; otherwise exactly the servable questions of the file |
| Backend.FindQuestionSpec | backend/app.py:247-250 | the lookup finds the first question with that id, or none |
| Backend.WithOpenSpec | backend/app.py:132-148 | get-or-create keeps the invariant and gives an in-progress session of the exam, creating one only when none is open |
| Backend.FinalizeKeepsConsistent | backend/app.py:150-170 | finalising keeps the session invariant |
| Backend.AbandonKeepsConsistent | backend/app.py:348-354 | abandoning keeps the session invariant |
| Backend.ViewKeepsConsistent | backend/app.py:221-225 | recording the last viewed index keeps the session invariant |
| Backend.AnswerKeepsConsistent | backend/app.py:295-305 | storing an answer keeps the session invariant |
| Backend.SubmitSpec | backend/app.py:229-315 | only a recorded answer changes the table; it appends one response for the session and the named question, with the picks sorted (a permutation) and judged by the multi-choice rule, and only when the count matches and the question was not yet answered in the session |
| Backend.SecondSubmissionRefused | backend/app.py:260-280 | a second answer to the same question in a session is refused with the first one's verdict, storing nothing |
| Backend.ClosedSpec | backend/app.py:336-360 | restarting closes the exam's open session: finalised when it has answers, else abandoned; every other session is unchanged, the invariant holds and none is left open for the exam |
| Backend.OpenKeepsConsistent | backend/app.py:356-363 | opening a new session keeps the invariant |
| Backend.RestartedSpec | backend/app.py:336-371 | the exam's open session is closed and one new in-progress session is appended at the requested start, the only one open for the exam; every other earlier session is unchanged |
| Backend.Api.constructor | backend/app.py:13-102 | an empty cache and empty tables |
| Backend.Api.LoadQuestions | backend/app.py:104-129 | the questions are the exam's servable questions, cached once loaded |
| Backend.Api.GetOrCreateSession | backend/app.py:132-148 | the session table becomes the get-or-create result |
| Backend.Api.FinalizeSession | backend/app.py:150-170 | a known session is finalised; an unknown one changes nothing |
| Backend.Api.GetQuestionsCount | backend/app.py:196-209 | no exam gives 400; otherwise the number of servable questions |
| Backend.Api.GetQuestion | backend/app.py:211-227 | no exam 400, out of range 404; otherwise the question, with the last viewed index recorded |
| Backend.Api.SubmitAnswer | backend/app.py:229-315 | the reply and the new tables are those of the submission rule on the open session |
| Backend.Api.CurrentSession | backend/app.py:317-334 | no exam 400; otherwise the open session of the exam, if any |
| Backend.Api.StartNewStudy | backend/app.py:336-371 | no exam 400; otherwise the restarted tables and the new session |
| Routes.TrackerCounts | app/routes.py:30-33 | the rebuilt tracker has one entry per answer and as many correct entries as correct answers |
| Routes.TrackerAppend | app/routes.py:249-252 | storing an answer appends its entry to that session's tracker only |
| Routes.AbandonIsEmptyFinalize | app/routes.py:76-80 | abandoning a session with no answers records what finalising would, with the abandoned status |
| Routes.SiteSubmitIsApiSubmit | app/routes.py:160-263 | the site's submission rule is the API's rule on the same question and picks |
| Routes.WithActiveSpec | app/routes.py:12-46 | get-or-create keeps the invariant and returns the cookie's session when it is in progress, else a new one with an empty tracker |
| Routes.NoAnswersBeyond | app/routes.py:36-44 | a session id past the table has no answers |
| Routes.AnswerKeepsConsistent | app/routes.py:237-247 | storing an answer keeps the site's invariant |
| Routes.ClosedCookieSpec | app/routes.py:65-102 | starting anew closes the cookie's session: finalised when answered, abandoned otherwise; every other session is unchanged |
| Routes.TrackAnswer | app/routes.py:249-252 | appending to the tracker keeps it equal to the rebuilt tracker |
| Routes.ViewKeepsConsistent | app/routes.py:129-131 | recording the last viewed index keeps the invariant |
| Routes.NewKeepsConsistent | app/routes.py:91-99 | opening a new session keeps the invariant |
| Routes.App.constructor | app/routes.py:12-46 | no sessions, no answers, an empty cookie |
| Routes.App.GetOrCreateSession | app/routes.py:12-46 | the table becomes the get-or-create result, the cookie names it and the tracker matches the stored answers |
| Routes.App.Index | app/routes.py:49-62 | the question count and the session to resume when it has answers or a viewed index |
| Routes.App.StartNewStudy | app/routes.py:65-102 | the cookie's session is closed; without questions back to the index with the cookie cleared; otherwise a new session at question 0 |
| Routes.App.ShowQuestion | app/routes.py:117-157 | no questions goes back to the index; out of range ends the study; otherwise the view is recorded and the question is shown with this session's stored answer |
| Routes.App.SubmitAnswer | app/routes.py:160-263 | no body 400; otherwise the submission rule on the active session |
| Routes.App.RecordAnswer | app/routes.py:173-263 | the reply and the new answers follow the site's rule and the tracker keeps matching |
| Routes.App.StoreAnswer | app/routes.py:211-252 | the answer is stored with the site's verdict and the picks sorted, and the tracker gains its entry and keeps matching the stored answers |
| Routes.App.FinalizeSession | app/routes.py:265-285 | a known session is finalised; an unknown one changes nothing |
| Services.ParseIntRoundTrip | app/services.py:64-67 | the decimal text of a number parses back to it |
| Services.ParseIntNeedsDigits | app/services.py:64-67 | text with no digit never parses |
| Services.StoredIdsDiffer | app/services.py:74 | records without an id are stored under distinct `idx_` ids |
| Services.SubmitSpec | app/services.py:51-98 | refused with 400 exactly when a field is missing, unparsable or out of range, storing nothing; otherwise one answer with the single-choice verdict and the key shown |
| Services.LatestAnswerSpec | app/services.py:30-49 | the newest stored answer to the question, or none when there is none |
| Services.AnswerIsShownNext | app/services.py:30-98 | a stored answer is the one the question page shows next |
| Services.AccuracyBounds | app/services.py:13-28 | correct answers never exceed answers, so the accuracy is a percentage |
| Services.App.constructor | app/__init__.py:15-26 | the loaded questions and no answers |
| Services.App.SubmitAnswer | app/services.py:51-98 | the reply and the new answers are those of the submission rule |
| Services.App.ShowQuestion | app/services.py:30-49 | not found exactly when out of range; otherwise the question and its newest answer |
| Services.App.Index | app/services.py:13-28 | counts and the accuracy, within 0..100 and 0 iff nothing correct |
| QuestionView.IndexOf | frontend/studyhub-frontend/src/app/components/question/question.component.ts:89 | `indexOf`: -1 when absent, else the first position |
| QuestionView.ToggleKeepsDistinct | frontend/studyhub-frontend/src/app/components/question/question.component.ts:86-103 | toggling never selects a letter twice |
| QuestionView.ToggleWithinRoom | frontend/studyhub-frontend/src/app/components/question/question.component.ts:92-98 | with a question, never more letters selected than it asks for (at least one) |
| QuestionView.ToggleFlips | frontend/studyhub-frontend/src/app/components/question/question.component.ts:89-102 | the letter is selected afterwards exactly when it was not before |
| QuestionView.ToggleRemoves | frontend/studyhub-frontend/src/app/components/question/question.component.ts:99-102 | a selected letter is removed, the others keep their order |
| QuestionView.ToggleAppends | frontend/studyhub-frontend/src/app/components/question/question.component.ts:90-98 | a new letter goes last, after the selection or after it without its oldest entry |
| QuestionView.ToggleTwiceRestores | frontend/studyhub-frontend/src/app/components/question/question.component.ts:86-103 | toggling a letter twice below the limit restores the selection |
| QuestionView.ToggleWithoutQuestion | frontend/studyhub-frontend/src/app/components/question/question.component.ts:90-102 | without a question toggling only removes |
| QuestionView.CountMessageNamesCount | frontend/studyhub-frontend/src/app/components/question/question.component.ts:113 | the count message names the required count and is none of the other messages |
| QuestionView.Component.constructor | frontend/studyhub-frontend/src/app/components/question/question.component.ts:17-25 | nothing loaded, nothing selected or answered |
| QuestionView.Component.LoadQuestion | frontend/studyhub-frontend/src/app/components/question/question.component.ts:70-84 | a loaded question resets the selection, the verdict and the message |
| QuestionView.Component.ToggleOption | frontend/studyhub-frontend/src/app/components/question/question.component.ts:86-103 | answered leaves the selection; otherwise the toggle rule with the question's count |
| QuestionView.Component.IsSelected | frontend/studyhub-frontend/src/app/components/question/question.component.ts:105-107 | true exactly when the letter is in the selection |
| QuestionView.Component.SubmitAnswer | frontend/studyhub-frontend/src/app/components/question/question.component.ts:109-138 | no question or answered sends nothing; a wrong count shows the count message and changes nothing else; else the request is sent and the reply sets verdict, key and message, a 409 restoring the earlier picks |
| QuestionView.Component.NextQuestion | frontend/studyhub-frontend/src/app/components/question/question.component.ts:140-147 | the next index |
| QuestionView.Component.PreviousQuestion | frontend/studyhub-frontend/src/app/components/question/question.component.ts:149-158 | the previous index only when not at the first question |
| Strings.NatToDecimal | scraper_selenium.py:211 | a non-empty run of digits without a leading zero |
| Strings.DecimalRoundTrip | scraper_selenium.py:211 | the decimal text of a number reads back as it |
| Strings.DecimalInjective | app/services.py:74 | distinct numbers have distinct decimal texts |
| Strings.SortedUnique | scraper_selenium.py:185 | `sorted(set(...))`: strictly increasing with exactly the input's characters |
| Strings.SortedUniqueDependsOnlyOnSet | scraper_selenium.py:185 | inputs with the same characters sort to the same string |
| Strings.SortStrings | backend/app.py:297 | `sorted` of the picks: sorted and a permutation |
| Strings.Remove | scraper_selenium.py:174 | `replace(' ', '')`: the character is gone, and every other character is kept as many times as it occurs |
| Strings.RemoveAppend | scraper_selenium.py:174 | removal works piece by piece, so the kept characters stay in their order |
| Strings.RemoveAbsent | scraper_selenium.py:174 | a string without the character is returned unchanged |
| Strings.StripShape | scraper_selenium.py:96 | `strip()` removes white space at both ends and nothing inside |
| Strings.TrimShape | scraper_selenium.py:71 | `strip(';')` removes the separators at both ends only |
| Strings.ContainsAt | scraper_selenium.py:69-70 | `in` on strings means an occurrence at some position |
| Wrappers.PresentComesFrom | scraper_selenium.py:110-115 | every kept value comes, in order, from its own position |
| Wrappers.FirstPresentIsFirst | scraper_selenium.py:177-183 | the first present value is at the first position holding one |
| Wrappers.DistinctCount | backend/app.py:287-293 | a list has as many distinct elements as entries exactly when it has no repeats |

## Left out

- Browser automation, page loading, sleeps, logging and file writing in `scraper_selenium.py` are left out. A page is given as a parsed tree or a failure message, and the list of references as a sequence.
- JSON decoding of the question files and the reference list is left out. A missing or undecodable file is the empty list, as `load_questions_for_exam` and `app/__init__.py` return. A reference list that is not a list is not modelled; only the empty list stops `main_scraper`.
- Values of the wrong JSON type, other than the answer key, are left out: fields are modelled as strings or absent.
- Python `int()` accepts underscores between digits and non-string inputs such as booleans and floats; `Services.IndexOf` does not model those. It accepts a JSON number as is and a string with an optional sign and decimal digits, surrounded by white space.
- Store.ScoreBounds: the score is an exact real. `round(score, 2)` and floating point are not modelled.
- Database failures (the 500 replies after a rollback) are left out: commits always succeed.
- SQLite numbers rows from 1, while the model numbers sessions from 0. The cookie's truthiness test is modelled on presence, which the first session's id 1 never falsifies in the source.
- `TestSession.query...first()` without an ordering is taken to return the first inserted row. Timestamps are replaced by insertion order.
- The routes `get_available_exams`, `resume_study`, `finish_study`, `my_study_sessions`, `show_session_results`, `show_question_review`, `delete_session`, `my_results` and `run_scraper_route`, and their API counterparts, are not part of this model. They are reporting and navigation around the modelled state.
- `app/services.py` stores `user_answer_letter` with no session id, which `app/models.py` does not declare. It is modelled on the schema its own calls imply, as a separate application. `create_app` does not register it.
- The question page's routing, console output, `ngOnInit` parameter reading and the total-question fetch are left out. The HTTP reply to a submission is a parameter of `QuestionView.Component.SubmitAnswer`.
- `QuestionService.submitAnswer` is declared with fewer parameters than the component passes. The request is modelled with the three values the component sends.
- QuestionView.Component.LoadQuestion: a failed load navigates away in the source; the model leaves the state unchanged on `None`.
- The widget-lookup fallbacks of `extract_question_data_from_page` are modelled, and proved to find nothing beyond the first lookup. The second `display: flex` test is modelled literally and proved never to hold.
- The HTML serialisation (`str(...)`) of the stem is not modelled. The stem is kept as a sanitised tree.
- Strings.IsDigit: Python's `\d` and `int()` also accept the other Unicode decimal digits (category Nd, such as Arabic-Indic digits). The model accepts only `0` to `9`.
- Consensus.PercentAtComplete and Consensus.PercentAtSound are stated for ASCII digits only, as `Strings.IsDigit` says; so are `Services.ParseInt` and `Services.IndexOf`.
- Backend.Api.GetQuestionsCount: the question files are fixed for the server's lifetime (`files` is a constant). In the source, a count cached as 0 while a file is missing stays 0 after the file appears. A cached question list likewise stays stale after its file changes. Neither staleness is modelled.
- Backend.Api.LoadQuestions: the same fixed files; a cached list is never refreshed, which the model cannot tell apart from a fresh read.
- Routes.App: one browser. The source keeps `current_test_session_id` and the answer tracker in the Flask session, which is per browser, so different clients can hold different sessions. The model has one cookie and one tracker, and `Tracks` speaks of that client only.
- QuestionView.Component.SubmitAnswer: the HTTP reply arrives asynchronously in the source. The model handles it in the same step as the request, so toggles or a second submission made before the reply arrives are not modelled.
