# Browser exercises: the logic behind the pages

A model of the small pieces of logic inside a set of browser exercises. The
DOM wiring is left aside.

- **Puzzle** (`proj10.js`): the drag-and-drop arithmetic puzzle "3 + 4 × 5 - 2 = 21".
  - Nine pieces, each with a correct slot and a current slot.
  - A Fisher-Yates shuffle, taking the random draws as input.
  - Swap-on-drop with its guards, and re-marking and re-counting of the pieces in place.
  - Win detection, a one-second tick that counts only while the game is active, and a best time that only improves.
  - The page state is the class `Puzzle.Game`.
- **Tasks** (`objects.js`): the `Task` class, `Tasks.Task`.
  - Pending and completed states, with the completion time.
  - An `update` that copies only the title, description and due date.
  - `reset`, the text form, and the days remaining.
- **ContactForm** (`proj7.js`): the contact page.
  - The duplicate-free list of selections, `ContactForm.Selections`: add checked, add custom, clear, remove at index.
  - The ten-digit phone check, the `(ddd) ddd-dddd` display form, and the validate button.
- **Email** (`proj6.js`, `proj7.js`): the e-mail pattern both forms share, `^[a-zA-Z0-9._%+-]+@[a-zA-Z0-9.-]+\.[a-zA-Z]{2,}$`.
  - It is written as an explicit predicate, `SplitsAt`.
  - It is proved equal to a direct check that cuts at the first `@` and the last `.`.
- **Registration** (`proj6.js`): the registration form.
  - Each field's pattern is an explicit predicate.
  - The age computation of the date-of-birth check.
  - The ordered error list the submit handler builds, and the blur handler's rule that a blank field is never marked.
- **Customizer** (`proj9.js`): the page customizer.
  - `getCookie` over the `name=value; name=value` cookie string, the Cookie header form of section 4.2.1 of RFC 6265.
  - The URL-then-cookie-then-default precedence of each setting. The defaults are `white`, `black` and `16px`.
  - The three-way label saying where the settings came from.
- **AgeForm** (`proj3.js`): the greeting form.
  - The first-match search over the age groups.
  - The case-insensitive fun-fact switch.
  - The submit guard.
- **Text** and **Wrappers**: shared support.
  - JavaScript's `trim` with its whitespace set, `\d`, `indexOf`, `lastIndexOf`, `split` and `join`.
  - Digit extraction (`replace(/\D/g, '')`) and ASCII lower-casing.
  - An `Option` type for `null`.

Throughout the model:
- Randomness, the clock and parsing are parameters. These are the shuffle draws, "now" and "today", and `parseInt` and `new Date(...)`.
- `null` is `None`.
- The exceptions of the registration submit handler (a missing field) and of the task's `toString` and `getDaysRemaining` (a truthy due date that is not a `Date`) are explicit outcomes. The other exceptions are listed under "Left out".

## Model

| member | source | states |
|---|---|---|
| Puzzle.ShuffleArray | proj10.js:101-107 | the array ends as the Fisher-Yates order for the given draws (each draw `j <= i`) and holds the same multiset of elements |
| Puzzle.ShuffledIsPermutation | proj10.js:101-107 | the shuffle keeps the length and the multiset, and distinct elements stay distinct |
| Puzzle.ShuffledLayout | proj10.js:50-51 | the shuffled copy of the piece table lists every one of the nine pieces exactly once |
| Puzzle.LayOut | proj10.js:54-61 | giving each piece its board index as current slot makes board and slots inverse to each other, so the slots are a permutation of 0..8 |
| Puzzle.ShuffledBoard | proj10.js:50-61 | the board is the shuffled piece order and the current slots are its inverse |
| Puzzle.ArrangementIsPermutation | proj10.js:227-235 | when board and slots are inverse, the slots are a permutation of 0..8 and the board lists the pieces in ascending slot order |
| Puzzle.SwapSlots | proj10.js:217-224 | the two pieces trade current slots and every other piece keeps its slot |
| Puzzle.SwapKeepsArrangement | proj10.js:226-235 | after the swap, re-sorting the board keeps board and slots inverse, and the board holds the same pieces |
| Puzzle.CountInPlaceFull | proj10.js:241-253 | the count over a list of pieces equals its length exactly when every listed piece is in its correct slot |
| Puzzle.SolvedIffAllInPlace | proj10.js:261 | the count over the board reaches the number of pieces exactly when every piece is in place |
| Puzzle.MarkAt | proj10.js:244-252 | one round of the check loop marks the piece at the next board index as correct exactly when it is in place, and adds one to the count exactly then |
| Puzzle.MarkPieces | proj10.js:241-253 | every piece is marked correct exactly when its current slot is its correct slot, and the count is the number of pieces in place |
| Puzzle.Improved | proj10.js:271-275 | the best time is replaced exactly when none is recorded or the new time is strictly smaller, and it never grows |
| Puzzle.Game.constructor | proj10.js:280-283 | page load keeps the stored best time and starts a valid, active game at 0 seconds on the shuffled board |
| Puzzle.Game.InitPuzzle | proj10.js:39-83 | seconds reset to 0, a freshly shuffled board with consistent marks and count, the game active, no drag, best time unchanged |
| Puzzle.Game.Tick | proj10.js:89-94 | a tick adds one second while the game is active and changes nothing once it is not |
| Puzzle.Game.DragStart | proj10.js:113-128 | a drag starts exactly from a piece that is not in its correct slot |
| Puzzle.Game.SwapElements | proj10.js:217-236 | the slots become the swap of the two pieces, and the board is a rearrangement of the old one in ascending slot order |
| Puzzle.Game.CheckAllPieces | proj10.js:241-254 | each mark says whether its piece is in place, and the count is the number of pieces in place |
| Puzzle.Game.CheckPuzzleSolution | proj10.js:260-277 | with every piece counted the game stops and the best time improves; otherwise nothing changes |
| Puzzle.Game.SwapAndCheck | proj10.js:200-207 | an accepted drop swaps the two slots, re-marks, stops the game exactly on a win and improves the best time only then |
| Puzzle.Game.Drop | proj10.js:185-210 | a drop swaps exactly when a piece is dragged and the target is a different piece not in place; otherwise nothing changes; pieces in place never move; the drag ends |
| Puzzle.WonIffAllInPlace | proj10.js:261 | in a valid game the count equals the number of pieces exactly when every piece is in place |
| Tasks.Task.constructor | objects.js:9-22 | a new task holds the given fields, is pending with no completion time, and takes its id and creation time from the clock |
| Tasks.Task.MarkAsCompleted | objects.js:28-33 | a pending task becomes completed at `now`; a completed one keeps its completion time; other fields are unchanged |
| Tasks.CompleteTwice | objects.js:28-33 | a second call keeps the completion time of the first |
| Tasks.Task.Update | objects.js:39-45 | only `title`, `description` and `dueDate` take the values given for them; every other field is unchanged |
| Tasks.Task.Reset | objects.js:50-53 | the task is pending with no completion time, and every other field is unchanged |
| Tasks.Task.StatusText | objects.js:63 | the status reads `Completed` exactly when the task is completed, and `Pending` exactly when it is not |
| Tasks.Task.DueText | objects.js:62 | a falsy due date reads `No due date`; a date reads as its locale text; any other truthy value fails |
| Tasks.Task.ToText | objects.js:59-64 | the text exists exactly when the due line does, and is the four lines: title, description, the due line (`No due date` for a falsy due date, by `DueText`), and the status; it starts with the title and description labels and ends with the status line naming the state, and only that one |
| Tasks.RenderedLines | objects.js:60-63 | a rendered task starts with its head, and its last line names the completed state exactly when completed, and the pending state exactly when not |
| Tasks.StatusLine | objects.js:63 | the two status lines cannot be confused: the text ends with one of them exactly when that state was rendered |
| Tasks.Task.DaysRemaining | objects.js:70-75 | `null` exactly when the due date is falsy, a failure for a truthy non-date, and otherwise the difference rounded up to whole days |
| Tasks.CeilDiv | objects.js:74 | the quotient is rounded up: `(q - 1) * m < d <= q * m` |
| ContactForm.FreshMembers | proj7.js:30-35 | the appended entries are exactly the checked values the list lacks, none twice, and no more of them than values |
| ContactForm.FreshKeepsNoDuplicates | proj7.js:30-35 | appending the fresh entries keeps a duplicate-free list free of duplicates |
| ContactForm.AppendFresh | proj7.js:30-35 | the loop appends the fresh entries in order after the old list, and clears exactly the checkboxes whose values were new |
| ContactForm.Selections.constructor | proj7.js:14 | the list starts empty |
| ContactForm.Selections.AddChecked | proj7.js:26-39 | the old entries stay as they were, the new checked values follow in order, and the list stays duplicate-free |
| ContactForm.Selections.AddCustom | proj7.js:44-55 | the trimmed text is appended, and the field cleared, exactly when it is not blank and not yet listed; otherwise nothing changes |
| ContactForm.Selections.Clear | proj7.js:60-63 | the list is empty |
| ContactForm.Selections.RemoveAt | proj7.js:101-106 | an index inside the list removes exactly that entry, keeping the others in order; any other index changes nothing |
| ContactForm.RemovedAt | proj7.js:103 | the entries before the index are kept, the ones after move down by one, and the multiset loses exactly the removed entry |
| ContactForm.RemovedAtDropsEntry | proj7.js:101-106 | removing from a duplicate-free list leaves it duplicate-free and without the removed entry, keeping every other entry |
| Text.DigitsOfNone | proj7.js:127 | a string without decimal digits leaves nothing behind when the non-digits are removed |
| Text.DigitsOfDigits | proj7.js:127 | a string of decimal digits is kept whole when the non-digits are removed |
| ContactForm.ValidatePhone | proj7.js:125-131 | the phone passes exactly when removing every non-digit leaves ten characters |
| ContactForm.FormatPhone | proj7.js:196-197 | ten digits `d` become `(d[0..3]) d[3..6]-d[6..]`, fourteen characters long |
| ContactForm.FormatPhoneKeepsDigits | proj7.js:196-197 | the display form of ten digits holds exactly those digits, in order |
| ContactForm.Validate | proj7.js:171-209 | success exactly when the phone has ten digits and the e-mail passes; success shows `FormatPhone` of the phone's digits (fourteen characters holding the same digits) and the e-mail as typed; failure flags exactly the failing fields |
| ContactForm.AfterInput | proj7.js:158-168 | typing hides a field's error once the value passes, and otherwise leaves the marker as it was, so it never raises one |
| Email.ValidateEmail | proj7.js:136-139 | the address is cut at its first `@` and its last `.`, and the cut must fit the pattern's local part, domain and top-level label |
| Email.SplitIsFirstAtLastDot | proj7.js:137 | any way of matching the pattern puts the `@` at the first `@` and the `.` at the last `.` |
| Email.ValidateEmailIffPattern | proj7.js:136-139 | the direct check accepts exactly the strings the pattern matches |
| Email.NoAtAfter | proj6.js:64 | after the `@` of a match come only domain characters, a `.` and letters, so no second `@` |
| Email.ValidEmailHasOneAt | proj6.js:63-66 | an accepted address holds exactly one `@` |
| Registration.ValidateFullName | proj6.js:51-54 | the trimmed name is not empty and every character is an ASCII letter or whitespace |
| Registration.FullNameNeedsALetter | proj6.js:51-54 | a full name passes exactly when it is made of ASCII letters and whitespace and has at least one letter |
| Registration.ValidateUsername | proj6.js:57-60 | an ASCII letter followed by 5 to 14 ASCII letters or digits |
| Registration.UsernameRule | proj6.js:57-60 | a username passes exactly when it has 6 to 15 characters, all ASCII letters or digits, the first not a digit |
| Registration.ValidatePassword | proj6.js:69-73 | 8 to 20 characters from letters, digits and `!@#$%^&*`, with a lower-case letter, an upper-case letter, a digit and a special character |
| Registration.ValidatePasswordsMatch | proj6.js:76-78 | the two entries are the same string |
| Registration.LookaheadIsContains | proj6.js:71 | over the allowed characters, each lookahead is a plain search for its class |
| Registration.ValidatePasswordIffPattern | proj6.js:69-73 | 8 to 20 allowed characters with a lower-case letter, an upper-case letter, a digit and a special character, exactly as the pattern with its lookaheads |
| Registration.ValidatePhoneNumber | proj6.js:81-85 | the number read left to right: the area code in parentheses exactly when it starts with `(`, and a separator exactly where a non-digit stands |
| Registration.ValidatePhoneNumberIffPattern | proj6.js:81-85 | the left-to-right reading accepts exactly what the phone pattern matches |
| Registration.PhonePatternHasTenDigits | proj6.js:83 | every shape the phone pattern accepts carries exactly ten digits |
| Registration.AcceptedPhonePassesContactCheck | proj6.js:81-85 | a phone number this form accepts also passes the contact page's ten-digit check |
| Registration.FormattedPhoneIsAccepted | proj6.js:83 | the contact page's `(ddd) ddd-dddd` display form is accepted here |
| Registration.AgeOn | proj6.js:99-106 | the year difference, less one when today's month and day come before the birth month and day |
| Registration.ValidateDateOfBirth | proj6.js:88-113 | the date parses and the computed age is at least 18 |
| Registration.AgeAtLeastIffBirthdayPassed | proj6.js:99-108 | the computed age is at least `n` exactly when the `n`-th birthday is not after today |
| Registration.Failed | proj6.js:139-201 | the positions of the failed checks, in increasing order, and every failed check appears |
| Registration.ErrorsFollowFailedChecks | proj6.js:139-201 | the error list pairs up with the failed checks: its `j`-th entry is the problem of the `j`-th failed check |
| Registration.NoErrorsIffAllPass | proj6.js:203-216 | the error list is empty exactly when every check passes |
| Registration.PushUnless | proj6.js:140-145 | one step appends a check's problem exactly when the check failed |
| Registration.Submit | proj6.js:116-222 | a missing field gives only the unexpected-error message; otherwise the error list holds one entry per failed check in check order; registration succeeds exactly when the list is empty |
| Registration.BlurMarks | proj6.js:225-281 | a field is marked exactly when its value is not blank and fails its own check; fields of other names are never marked |
| Text.Trim | proj9.js:122 | `trim`: the whitespace at both ends is removed |
| Text.TrimIsSlice | proj9.js:122 | the trimmed text is the slice of the input between blank ends, and starts and ends with a non-whitespace character when not empty |
| Customizer.CookieValue | proj9.js:119-128 | the value `getCookie` returns: the search over the trimmed `;` segments |
| Customizer.FindFromFirstMatch | proj9.js:121-127 | the search finds nothing exactly when no trimmed segment starts with `name=`, and otherwise yields the value of the first one that does |
| Customizer.Scan | proj9.js:121-127 | the loop with its early return yields the first match of the search over the trimmed segments |
| Customizer.GetCookie | proj9.js:119-128 | `getCookie` returns the value after `name=` in the first trimmed `;` segment that starts with it, or `null` |
| Customizer.LongerKeyDoesNotMatch | proj9.js:123 | a segment for a longer key that starts with `name` (such as `bgColorX=`) does not match `name` |
| Customizer.PairMatches | proj9.js:123-124 | `key=value` yields `value` for `key` and nothing for any other name without `=` |
| Customizer.CookieReadBack | proj9.js:119-128 | over the browser's cookie string for stored pairs, `getCookie(name)` returns the value of the first pair named `name`, or `null` |
| Customizer.Or | proj9.js:26-28 | `a \|\| b` on a string or `null` keeps `a` when it is a non-empty string and gives `b` otherwise |
| Customizer.Pick | proj9.js:26-28 | a setting is its URL value when that is a non-empty string, else its cookie value when that is a non-empty string, else its default; it is never empty when the default is not |
| Customizer.Resolve | proj9.js:26-28 | a key's setting is its own non-empty URL parameter, else its own non-empty cookie, else its own default |
| Customizer.InitialSettings | proj9.js:25-29 | each of the three settings is resolved from its own key's URL parameter, cookie and default, and none is empty |
| Customizer.SettingsSource | proj9.js:96-102 | the label names the URL exactly when one of the three keys is present in it, and the defaults exactly when no key is present and no cookie is non-empty |
| Customizer.SourceTextDistinct | proj9.js:96-102 | the three labels differ, so the label tells the source apart |
| Customizer.StatusLabel | proj9.js:96-102 | the label names the URL exactly when one of the three keys is in it, and the defaults exactly when no key is and no cookie is non-empty |
| Customizer.DefaultSourceMeansDefaults | proj9.js:100-101 | when the label names the defaults, the settings are the defaults |
| Customizer.CookieSourceMeansCookies | proj9.js:98-99 | when the label names the cookies, each setting is its non-empty cookie or its default, and at least one cookie is used |
| Customizer.EmptyUrlValueIsLabelledUrl | proj9.js:96-97 | `?bgColor=` with no cookies is labelled as loaded from the URL while every setting is the default |
| AgeForm.AgeMessage | proj3.js:11-27 | the invalid-age text outside 0..120, else the message of the first group holding the age, else the empty string |
| AgeForm.DisplayAgeMessage | proj3.js:11-27 | the range guard and the scan with its early exit return the message of the first group that holds the age |
| AgeForm.FirstMatchFinds | proj3.js:18-23 | in ordered groups, an age held by group `k` gets group `k`'s message |
| AgeForm.FirstMatchEmptyIff | proj3.js:18-23 | the scan comes back empty exactly when no group holds the age |
| AgeForm.InvalidIffOutOfRange | proj3.js:15-16 | the invalid-age text appears exactly for ages below 0 or above 120 |
| AgeForm.AgeGroupsOrdered | proj3.js:3-8 | the groups are in increasing order, none overlapping the next |
| AgeForm.WholeAgeHasOneGroup | proj3.js:3-8 | every whole age from 0 to 120 lies in exactly one group and gets that group's message |
| AgeForm.EmptyOnlyBetweenGroups | proj3.js:12-23 | the empty message comes exactly from an age within 0..120 that no group holds, and such an age is never a whole number |
| AgeForm.TwelveAndAHalfGetsNothing | proj3.js:18-23 | 12.5 falls between the child and teenager groups and gets the empty message |
| AgeForm.DisplayFunFact | proj3.js:30-49 | the fact for the topic that the lower-cased category names, the default fact for any other category |
| AgeForm.TopicIffKeyword | proj3.js:34-43 | `coding`, `music` and `fitness` are each recognised in any mix of case, and only then |
| AgeForm.FunFactIgnoresCase | proj3.js:34 | two categories that differ only in case get the same fact |
| AgeForm.OtherIffNoKeyword | proj3.js:44-45 | the default fact comes exactly for a category that is none of the three keywords |
| AgeForm.Submit | proj3.js:52-67 | no greeting exactly when the trimmed name is empty or the age is not a number; otherwise the greeting with the trimmed name, the age message and the coding fact |
| AgeForm.SubmittedAgeMessageNotEmpty | proj3.js:56-63 | a greeting's age message is never empty, since the submitted age is a whole number |

## Left out

- DOM, styling, `innerHTML`, `alert` and `console`: only the state and the values they display are modelled.
- Timers: `setInterval` and `clearInterval` become the one `Puzzle.Game.Tick` event.
- The drag visual cues (`dragging`, `over`, `handleDragOver`, `handleDragEnter`, `handleDragLeave`, `handleDragEnd`) change no state and are not modelled.
- `Puzzle.Game.Drop`: a drop with no drag in progress is treated as a no-op. In the page, `getElementById` would return `null` and `swapElements` would throw.
- `Puzzle.Game.constructor`: the stored best time is given as a number. The `localStorage` string and its `parseInt` are not modelled. A stored `"0"` is a non-empty string, so the page keeps it like any other record, as the model does.
- `Puzzle.Improved`: a best time of `0` is kept like any other. In the page, a 0-second win stores the number `0` in `bestTime`, which is falsy, so the next win in the same session replaces it whatever its time. The model does not capture that replacement.
- `Puzzle.Game.InitPuzzle`: a shuffle that happens to leave every piece in place still starts an active game, as in the page. Every piece is then marked in place, so `DragStart` refuses every drag and no drop ever swaps. The game is never won and the clock runs until the next reset; the model keeps this behaviour of the page.
- `Math.random` in `shuffleArray`: the draws are an input, each `j <= i`.
- `Tasks.Task.constructor`: `id` and `createdAt` both come from the single clock reading `now`. The uniqueness of `Date.now()` is not claimed.
- `Tasks.Task.Update`: the updates are a map. `update(null)` and `update(undefined)`, where `Object.keys` throws, are not modelled.
- `Tasks.Task.DaysRemaining`: it works on whole milliseconds with an integer ceiling. JavaScript divides in floating point before `Math.ceil`.
- `toLocaleDateString` and JavaScript's string conversion of the task fields are function parameters.
- `Registration.ValidateDateOfBirth`: the parsed date is an input (`None` for an invalid date). It does not capture the time-zone shift of `new Date("YYYY-MM-DD")`, which parses as UTC midnight and may land on the previous local day.
- `Registration.Submit`: the eight verdicts are computed first and then pushed in check order. The source interleaves the checks with the pushes, which give the same list since the checks have no side effects.
- `Registration.BlurMarks`: the date-of-birth input is checked on its parsed value, like the submit handler.
- `AgeForm.TopicOf`: `toLowerCase` is modelled as ASCII lower-casing. This is exact for the three keywords: the only non-ASCII character that lower-cases to an ASCII letter is the Kelvin sign, which becomes `k`, and no keyword contains a `k`.
- `AgeForm.Submit`: `parseInt` is an input, `None` for `NaN`.
- `AgeForm.FactText`: the four fact texts are pairwise different, but that is not proved.
- `Customizer.SettingsSource`: the label is computed once, for the initial settings. After a submit, the page re-labels using the URL it read at load time; that re-labelling is not modelled.
- `setCookie`, `history.pushState` and the form submit of the customizer are browser writes and are not modelled. `Customizer.CookieReadBack` takes the browser's cookie string as given.
- The file upload of the contact page (`FileReader`) is I/O and is not modelled.
- `proj11.js` (network requests), `proj5.js` (overlay wiring) and `proj2.js` (alerts around string-to-number coercion) are not part of this model.
