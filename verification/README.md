# Portfolio page controllers, modelled in Dafny

This project models the three script controllers of a personal portfolio site that hold logic
worth stating exactly:

- **The contact form** (`js/contact.js`). Four field validators (name, email, subject, message)
  judge the trimmed field value. `validateField` shows or clears a per-field error. The sticky
  rule applies: blur always re-validates, while input re-validates only a field already flagged.
  The submit gate validates every field and enters the loading state only when all pass; after
  the simulated send it shows the success panel, and then the form is reset. A character counter
  sits under the message field.
- **The projects grid** (`js/projects.js`). Mutually exclusive filter buttons show or hide project
  cards by a substring test on each card's `data-category`. A live search box shows or hides the
  same cards by a case-insensitive substring test on title, description and technology tags, and
  overrides whatever the filter decided.
- **The skill board** (`skills.js`). Progress bars get one of five colour bands by level. A
  comparison selection is kept both as a list of (name, level) entries and as a `selected` class
  on each item. A comparison panel is drawn only when more than one skill is selected. A live
  search hides non-matching skills, and hides every category that has none left.

The browser is abstracted away. Every per-element piece of DOM state becomes a sequence field of
a class, and each handler's `forEach` becomes an index loop that reassigns it:

- an element's classes become booleans;
- its `display` style becomes `Style.Display`;
- its text becomes a `string`.

The JavaScript string primitives the handlers use are modelled in module `Strings`: `trim`,
`toLowerCase`, `includes`, and the decimal rendering of a number inside a template literal.

Files:

- `style.dfy` holds module `Style`.
- `strings.dfy` holds module `Strings`.
- `contact.dfy` holds module `Contact`: the validators, the field view, and class `ContactForm`.
- `projects.dfy` holds module `Projects`: card predicates and class `ProjectGrid`.
- `skills.dfy` holds module `Skills`: bands, the selection, the panel, and class `SkillBoard`.

Three behaviours of the code are easy to misread, and the model follows the code in each:

- The project filter is a substring test on the raw `data-category` string, not a test of
  membership in a set of category tags. The filter "front" keeps a card whose category is
  "frontend".
- The timed reset after a successful send removes the `error` and `show` classes. It does not
  clear the error elements' text, which stays in place though hidden.
- The message validator accepts exactly the lengths 10 to 1000 inclusive, although its message
  reads "less than 1000 characters".

## Model

| member | source | states |
|---|---|---|
| Strings.LeadingSpaces | js/contact.js:9 | the count is at most the length, everything before it is whitespace, and the next character is not |
| Strings.TrailingSpaces | js/contact.js:9 | the count is at most the length, everything after the kept prefix is whitespace, and the character before it is not |
| Strings.Trim | js/contact.js:9 | `trim` keeps no more than the input past its leading whitespace, and what it keeps starts and ends with a non-whitespace character |
| Strings.TrimEmptyIff | js/contact.js:9 | `trim` gives "" exactly when the input is all whitespace |
| Strings.TrimIsSlice | js/contact.js:9 | the trimmed string is the input's slice that starts right after the leading whitespace |
| Strings.TrimDropsOnlySpace | js/contact.js:9 | everything after the trimmed slice is whitespace |
| Strings.LeadingSpacesBefore | js/contact.js:9 | whitespace put before a string that starts with a non-whitespace character is exactly its leading run |
| Strings.TrailingSpacesAfter | js/contact.js:9 | whitespace put after a string that ends with a non-whitespace character is exactly its trailing run |
| Strings.TrimSurrounded | js/contact.js:9 | any whitespace on either side of an already trimmed string is removed, and nothing else is |
| Strings.SplitAroundTrim | js/contact.js:9 | every string is its trimmed form with a run of whitespace before it and a run after it |
| Strings.TrimPaddedAny | js/contact.js:9 | whitespace added on either side of any string leaves its trim unchanged |
| Strings.TrimKeepsTrimmed | js/contact.js:9 | a string with no whitespace at either end is its own trim |
| Strings.TrimIdempotent | js/contact.js:9 | trimming twice is trimming once |
| Strings.ToLower | js/projects.js:184-189 | `toLowerCase` keeps the length, leaves no upper-case letter, keeps every other character, and maps each upper-case letter to its lower-case letter |
| Strings.ToLowerIdempotent | js/projects.js:184-189 | lower-casing twice is lower-casing once |
| Strings.Includes | js/projects.js:21 | a string that includes `p` is at least as long as `p`, and every string includes "" |
| Strings.IncludesIff | js/projects.js:21 | `includes` holds exactly when `p` occurs at some offset |
| Strings.NatText | js/contact.js:129 | the decimal text of a count is non-empty digits with no leading zero, and it reads back as the count |
| Strings.NatTextInjective | js/contact.js:129 | distinct counts render as distinct texts |
| Strings.IntText | skills.js:190-192 | an integer renders with a minus sign exactly when negative, followed by the digits of its magnitude with no leading zero |
| Contact.ValidateName | js/contact.js:27-31 | valid exactly when at least 2 characters long; "" is "Name is required" and one character is "Name must be at least 2 characters" |
| Contact.EmailShapedMatches | js/contact.js:33-35 | every string accepted by the positional email test splits as local "@" host "." tld into runs without whitespace or '@' |
| Contact.MatchesEmailShaped | js/contact.js:33-35 | every string of the pattern's shape passes the positional test |
| Contact.EmailShaped | js/contact.js:33-35 | the email pattern test, read by positions; EmailShapedIff proves it decides exactly the pattern |
| Contact.EmailShapedIff | js/contact.js:33-35 | the positional test accepts exactly the strings `^[^\s@]+@[^\s@]+\.[^\s@]+$` matches |
| Contact.ValidateEmail | js/contact.js:32-37 | "" is "Email is required"; any other value is valid exactly when it matches the pattern, and is otherwise "Please enter a valid email address" |
| Contact.ValidateSubject | js/contact.js:38-41 | valid exactly when non-empty; "" is "Please select a subject" |
| Contact.ValidateMessage | js/contact.js:42-47 | valid exactly when 10 to 1000 characters long, with the required, too-short and too-long messages on the three failing ranges |
| Contact.EveryValidatorRequiresValue | js/contact.js:51-56 | every validator wired to a field rejects "", and every rejection carries a non-empty message |
| Contact.ValidatorBoundaries | js/contact.js:27-47 | one character fails the name rule and two pass; "a@b" is not an email and "a@b.com" is; 9 characters fail the message rule and 10 pass |
| Contact.JudgedShowsVerdict | js/contact.js:8-23 | judging keeps the value; it sets the error flag and shows the message exactly when the trimmed value fails; success clears the text; judging twice equals judging once |
| Contact.BlankNameIsRequired | js/contact.js:8-14 | a whitespace-only name is flagged "Name is required", not "too short" |
| Contact.Judged | js/contact.js:12-22 | the field as `validateField` leaves it; JudgedShowsVerdict states what that means |
| Contact.Passes | js/contact.js:9-22 | whether a field's value, once trimmed, satisfies its validator; JudgedShowsVerdict and PaddingDoesNotCount state what it decides |
| Contact.PaddingDoesNotCount | js/contact.js:9-10 | any run of whitespace on either side of any value, trimmed or not, never changes a field's verdict |
| Contact.JudgedAll | js/contact.js:73-77 | every field judged by its own validator, none skipped, and the form keeps its length; JudgedAllFlagsEveryFailure states the rest |
| Contact.FormPasses | js/contact.js:72-79 | the form is valid when every field's trimmed value passes its own validator; JudgedAllFlagsEveryFailure ties it to the flags |
| Contact.JudgedAllFlagsEveryFailure | js/contact.js:72-81 | submitting judges every field without short-circuit: values kept, each failing field flagged, and the form passes exactly when no field is flagged |
| Contact.Cleared | js/contact.js:97-106 | a field after the timed reset: value "", `error` and `show` classes removed, message text kept |
| Contact.ClearedFormFails | js/contact.js:96-107 | a form just reset cannot pass validation |
| Contact.CounterText | js/contact.js:129 | the counter reads the count's digits, with no leading zero, followed by "/1000" |
| Contact.ContactForm.constructor | js/contact.js:51-56 | the four fields are wired, through the constant `Wiring`, to the name, email, subject and message validators in that order, blank and idle, with the counter at "0/1000" |
| Contact.ContactForm.ValidateField | js/contact.js:8-23 | field `i` becomes its judged form, nothing else changes, and the result is whether its trimmed value passed |
| Contact.ContactForm.Blur | js/contact.js:59 | leaving a field re-validates it |
| Contact.ContactForm.Input | js/contact.js:60-64 | typing re-validates a field only if it already carries the error flag; otherwise it only takes the new value |
| Contact.ContactForm.RefreshCounter | js/contact.js:127-135 | the counter shows the untrimmed message length over 1000, in the accent colour exactly when it exceeds 900 |
| Contact.ContactForm.MessageInput | js/contact.js:60-64 | one input event on the message field runs both listeners: the sticky re-validation, then the counter, which shows the new length |
| Contact.ContactForm.ValidateAll | js/contact.js:72-77 | every field is judged, and the result is whether all passed |
| Contact.ContactForm.Submit | js/contact.js:68-86 | every field is judged; the form enters the loading and disabled state exactly when all pass, and otherwise stays idle with the button enabled |
| Contact.ContactForm.SendCompleted | js/contact.js:89-93 | after the send the form is hidden and the success panel shown, with the button still disabled |
| Contact.ContactForm.ResetElapsed | js/contact.js:96-108 | the form returns to idle: shown, values back to "", error classes removed on every field, success panel hidden, and the button enabled |
| Projects.FilterKeeps | js/projects.js:16-21 | whether a filter keeps a card; FilterKeepsIff states it by offsets |
| Projects.FilterKeepsIff | js/projects.js:16-27 | "all" keeps every card; any other filter keeps a card exactly when its category attribute is present, non-empty and contains the filter at some offset |
| Projects.FilterIsSubstringTest | js/projects.js:21 | "front" keeps a "frontend" card and "end" keeps "web frontend"; an empty or absent category is dropped |
| Projects.SearchFinds | js/projects.js:187-193 | whether a lower-cased term finds a card in its title, description or any tag; EmptySearchFindsAll and SearchIgnoresCase are about it |
| Projects.EmptySearchFindsAll | js/projects.js:191-193 | the empty search term finds every card |
| Projects.SearchIgnoresCase | js/projects.js:184-189 | a term and its lower-cased form find the same cards |
| Projects.FilterHidden | js/projects.js:15-29 | one `hidden` flag per card after a filter click, set exactly when the filter drops the card; FilterKeepsIff says which |
| Projects.SearchHidden | js/projects.js:186-202 | one `hidden` flag per card after a search, set exactly when the lower-cased term finds nothing in it |
| Projects.DisplayFor | js/projects.js:17-26 | one `display` style per card, none for a hidden card and block otherwise; DisplayMatchesHidden states it |
| Projects.DisplayMatchesHidden | js/projects.js:195-201 | a card is displayed as block exactly when it lacks the `hidden` class, and never left unset |
| Projects.ShowAllCases | js/projects.js:16-18 | the filter "all" hides no card, and neither does the empty search |
| Projects.ProjectGrid.constructor | js/projects.js:3-4 | the page starts with the markup's buttons and cards, and no card hidden or styled |
| Projects.ProjectGrid.ClickFilter | js/projects.js:6-29 | exactly the clicked button is active; every card's visibility follows the filter alone and its display agrees; clicking the filter already in force changes nothing |
| Projects.ProjectGrid.Search | js/projects.js:183-203 | every card's visibility follows the lower-cased term alone, whatever filter was in force; display agrees; the active button is kept |
| Skills.Band | skills.js:96-106 | the band is 1 to 5, band 1 exactly from 90 up and band 5 exactly below 75 |
| Skills.BandMonotone | skills.js:96-106 | a higher level never lands in a worse band |
| Skills.BandBoundaries | skills.js:96-106 | 90 is band 1, 89 and 85 band 2, 84 and 80 band 3, 79 and 75 band 4, 74 band 5 |
| Skills.EntryOf | skills.js:161 | the (name, level) entry a click on an item appends |
| Skills.Gradient | skills.js:96-106 | the progress-bar background of each of the five bands |
| Skills.RemoveNamed | skills.js:158 | `filter` keeps exactly the entries with another name, never lengthens the list, and leaves a list without that name unchanged; order and multiplicity follow from RemoveNamedAppend with RemoveNamedSingleton |
| Skills.RemoveNamedSingleton | skills.js:158 | a one-entry list keeps its entry exactly when the name differs |
| Skills.RemoveNamedAppend | skills.js:158 | removing by name distributes over concatenation, so with the one-entry case it keeps the surviving entries in order and each once per occurrence |
| Skills.RemoveNamedKeepsDistinct | skills.js:158 | removing by name keeps a list free of repeated names |
| Skills.Toggle | skills.js:156-162 | a click flips the clicked item's flag and no other |
| Skills.UnselectedNotListed | skills.js:149-166 | with unique names, the list never holds the name of an unselected item |
| Skills.AppendThenRemove | skills.js:158-161 | appending an entry whose name is absent, then removing that name, gives the list back |
| Skills.ToggleConsistent | skills.js:149-166 | with unique names, every click keeps the list free of repeated names and holding exactly the entries of the selected items |
| Skills.ToggleTwiceRestores | skills.js:156-162 | from an unselected item, two clicks restore the list and the flags exactly |
| Skills.ToggleTwiceFromSelected | skills.js:156-162 | from a selected item, two clicks restore the flags and the set of entries, but the item's entry moves to the end of the list |
| Skills.Rows | skills.js:186-194 | one row per entry, in list order, with the entry's name and its level followed by "%" as bar width and as label |
| Skills.PanelFor | skills.js:168-178 | a panel exists exactly when more than one skill is selected, and it holds those rows |
| Skills.SkillFound | skills.js:334-337 | whether a lower-cased term finds a skill in its lower-cased name or description |
| Skills.CountShown | skills.js:348-350 | the number of a category's items not displayed as none, at most the number of items; CountShownZeroIff says when it is zero |
| Skills.CountShownZeroIff | skills.js:347-356 | a category counts no visible item exactly when all its items are displayed as none |
| Skills.EmptySearchFindsAll | skills.js:331-337 | the empty search term finds every skill |
| Skills.SkillBoard.constructor | skills.js:149 | the board starts with nothing selected, no panel, and a consistent selection |
| Skills.SkillBoard.UpdateSkillColors | skills.js:90-110 | every progress bar gets the gradient of its level's band |
| Skills.SkillBoard.UpdateComparison | skills.js:168-178 | the panel is whatever the current list calls for |
| Skills.SkillBoard.Click | skills.js:151-166 | the new flags and list are the toggle of the old ones, and the panel is redrawn for the new list |
| Skills.SkillBoard.ClearComparison | skills.js:279-286 | the list is empty, no item is selected, and there is no panel |
| Skills.SkillBoard.Search | skills.js:330-358 | an item is displayed exactly when the lower-cased term occurs in its lower-cased name or description; a category is hidden exactly when none of its items matches |

## Left out

- Animations, IntersectionObservers, ripples, hover and typewriter effects, and the stat counter
  are not modelled. They are cosmetic, timed, or use floating point.
- The 2-second send delay and the 5-second reset delay are modelled only as the separate
  transitions `SendCompleted` and `ResetElapsed`, not as time.
- Injected CSS and `innerHTML` markup are not modelled beyond the row content (`Skills.Rows`).
- Skills.Rows: a row keeps the skill's name as raw text. The page writes it into `innerHTML`, so a
  name containing markup would be parsed as HTML; that parsing is not modelled.
- Clipboard copy, tooltips, `alert` and `console.error` are browser calls and are not modelled.
- The `catch` branch of the submit handler is not modelled. It cannot run, because the awaited
  timer promise never rejects.
- `Contact.ContactForm.Submit`: it requires the button not to be disabled. A disabled submit
  button lets no submit event through, so a second submit during the send is not modelled.
- `trim` and the pattern's `\s` are modelled over ASCII whitespace only. `toLowerCase` is modelled
  over ASCII letters only. String lengths count characters, not UTF-16 code units.
- Levels are taken as integers. `parseInt` and a NaN level, which would fall into band 5, are not
  modelled.
- The `opacity` style the skill search sets alongside `display` is not modelled.
- A filter button without `data-filter` is not modelled: every button is taken to carry one.
- The form's field defaults are taken to be "", so `reset()` empties every value. The counter is
  not refreshed by the reset, because no input event fires.
- Skills.ToggleConsistent: the list-and-flags agreement is proved only for unique item names.
  With duplicate names, deselecting one item drops every entry of that name.
- Skills.ToggleConsistent: the list's order is not stated as a separate invariant. It is fixed
  by `Skills.Toggle`, which appends at the end and removes in place.
