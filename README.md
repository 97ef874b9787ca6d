# Page script of a small finance-services site, in Dafny

The site's single script, `scripts.js`, is made of the following parts:

- **`formatPhoneNumber`** keeps the digits of a number and shows ten of them as `DDDD-DDD-DDD`. The page applies it to the text of every `tel:` link unless the link is marked `raw-phone`.
- **`validateEmail`** lower-cases an address and tests it against `/^[^\s@]+@[^\s@]+\.[^\s@]+$/`.
- **The contact form's submit handler** trims the three fields and lets them through only when the name and the message are non-empty and the address is valid. It then posts them. On success it shows the `formToast` element and resets the form; on failure it calls `showToast` with a fixed error text.
- **`showToast`** writes a message into `formToast` and gives it a Bootstrap class for the notification type: `error` becomes `danger`, `info` becomes `primary`, anything else `success`.
- **Active navigation highlighting** takes the page name from the last piece of the location's path, or `home` when that piece is empty. It marks every `.nav-link` whose `href` matches that name.

## How the project is organised

| module | file | contents |
|---|---|---|
| `Optional` | `option.dfy` | `Option` (an attribute that may be `null`, a request that may not be sent) |
| `Chars` | `chars.dfy` | ASCII digits; the ECMAScript white-space set used by both `\s` and `trim`; filtering a string; counting; ASCII lower-casing; `trim` |
| `Phone` | `phone.dfy` | `formatPhoneNumber`; the loop over the `tel:` links, written as a method over an array |
| `PhoneExamples` | `phone_examples.dfy` | concrete numbers |
| `Email` | `email.dfy` | `validateEmail`, written as a scan for the first `@`. It is proved equal to the language of the regular expression, and to a plain-words description |
| `EmailExamples` | `email_examples.dfy` | concrete addresses |
| `Toast` | `toast.dfy` | `showToast`'s class string and the error text |
| `Submission` | `submission.dfy` | **The gate:** a function. **`ContactForm`:** a class whose fields are the input values, the toast element, the notifications shown and the requests sent. It has methods for typing, submitting, resetting and receiving a reply |
| `Nav` | `nav.dfy` | `split('/')` and `pop()`; the page name; the highlighting loop, written as a method over an array |

The regular expression is not run; it is modelled by its meaning.

- `Email.MatchesPattern` says a string is `local@host.tld`, where each of the three parts is a non-empty run of characters that are neither white space nor `@`.
- The executable test `Email.Accepts` finds the first `@`, checks both sides and looks for a `.` strictly inside the domain. It is proved to decide exactly that language.

Network replies are an input: `Submission.Reply` is one of:

- a response with its `ok` status and whether its body parsed as JSON;
- a failed `fetch`.

The fields' values are what the user typed (`ContactForm.Fill`).

## Model

| member | source | states |
|---|---|---|
| `Chars.Trim` | scripts.js:13-15 | the result is a contiguous part of the input with only white space before and after it; when non-empty it neither starts nor ends with white space; it is empty exactly when the input is all white space |
| `Chars.TrimIdempotent` | scripts.js:13-15 | trimming a trimmed value changes nothing |
| `Chars.TrimKeepsUnpadded` | scripts.js:13-15 | a value without white space is its own trim |
| `Chars.TrimUnpadded` | scripts.js:13-15 | the trimmed value is non-empty with no white space at either end exactly when the input was not all white space |
| `Chars.Filter` | scripts.js:178 | the characters kept by a test, in order (`replace` with a global character class); never longer than the input and every character kept passes the test; its value is pinned down by `FilterAppend`, `FilterKeepsAll`, `FilterDropsAll` and `FilterEmpty` |
| `Chars.FilterEmpty` | scripts.js:178 | removing the non-kept characters leaves nothing exactly when no character is kept |
| `Chars.Lower` | scripts.js:195 | lower-casing keeps the length and maps every character independently (ASCII `A`-`Z` to `a`-`z`, everything else unchanged) |
| `Phone.Digits` | scripts.js:178 | `replace(/\D/g, '')` yields only digits and is no longer than its input |
| `Phone.FormatPhoneNumberShape` | scripts.js:176-186 | specifies `Phone.FormatPhoneNumber` (phone.dfy, no contract of its own), with `FormatKeepsDigits` and `FormatIdempotent`: with exactly ten digits the result is 12 characters, dashes at 4 and 8, the digits in order at every other place, and deleting the dashes gives the digits back; with any other count the input is returned untouched |
| `Phone.FormatKeepsDigits` | scripts.js:176-186 | formatting never adds, drops or reorders a digit |
| `Phone.FormatIdempotent` | scripts.js:176-186 | formatting a formatted number gives the same number |
| `Phone.FormattedLinks` | scripts.js:94-98 | the `tel:` links after the formatting pass, one per link; what each becomes is stated by `FormatPhoneLinks` (its specification) and `FormattedLinksIdempotent` |
| `Phone.FormattedLinksIdempotent` | scripts.js:94-98 | formatting the `tel:` links a second time changes nothing |
| `Phone.FormatPhoneLinks` | scripts.js:94-98 | after the loop every link not marked `raw-phone` has its text formatted and every `raw-phone` link is untouched |
| `PhoneExamples.TenDigits` | scripts.js:180-183 | `0788302499` is shown as `0788-302-499` |
| `PhoneExamples.Punctuated` | scripts.js:178-183 | `(078) 830-2499` is shown as `0788-302-499` |
| `PhoneExamples.TooShort` | scripts.js:185 | `123` is returned as it was given |
| `Email.Find` | scripts.js:194 | the index found is the first occurrence at or after the start, or the end when there is none |
| `Email.AcceptsIffMatches` | scripts.js:194 | the executable test `Email.Accepts` accepts exactly the strings of `Email.MatchesPattern`, the language of the regular expression (both predicates are in email.dfy, with no contract of their own) |
| `Email.SplitValid` | scripts.js:193-196 | any `local@host.tld` built from three non-empty runs without white space or `@` is valid |
| `Email.CaseInsensitive` | scripts.js:193-196 | specifies `Email.ValidateEmail` (email.dfy, no contract of its own): `validateEmail` is the pattern test of the address itself (lower-casing changes no character class), so it holds exactly when the address matches, and it gives the same verdict on the lower-cased address |
| `Email.AcceptsIffDescribed` | scripts.js:193-196 | both `Email.Accepts` and `Email.ValidateEmail` hold exactly when `Email.Described` does: an address passes exactly when it has no white space, exactly one `@`, something before the `@`, and a `.` after it that is neither the first nor the last character of the domain |
| `Email.AcceptedIsDescribed` | scripts.js:193-196 | the "only if" half of the above |
| `Email.DescribedIsAccepted` | scripts.js:193-196 | the "if" half of the above |
| `Email.AtSplit` | scripts.js:194 | the `@` count of a string is the count before a given `@`, plus one, plus the count after it |
| `Email.TwoAtsRefused` | scripts.js:193-196 | an address with two `@` is refused |
| `Email.NoDotRefused` | scripts.js:193-196 | an address without a `.` is refused |
| `Email.NoAtRefused` | scripts.js:193-196 | an address without an `@` is refused |
| `EmailExamples.PlainAddress` | scripts.js:193-196 | `user@example.com` is valid |
| `EmailExamples.UpperCaseAddress` | scripts.js:195 | `USER@EXAMPLE.COM` is valid |
| `EmailExamples.DoubleAt` | scripts.js:193-196 | `user@@example.com` is refused |
| `EmailExamples.NoDotInDomain` | scripts.js:193-196 | `user@example` is refused |
| `Toast.ToastStyle` | scripts.js:209 | the colour is `danger` exactly for type `error`, `primary` exactly for `info`, and `success` exactly for every other type |
| `Toast.StyleRecovered` | scripts.js:209 | specifies `Toast.ToastClassName` (toast.dfy, no contract of its own), with `ClassNamesDistinguish`: the colour can be read back out of the class string `showToast` writes |
| `Toast.ClassNamesDistinguish` | scripts.js:209 | two types get the same class string exactly when they get the same colour |
| `Toast.ShowToast` | scripts.js:203-211 | the element's body becomes the message and its class carries the colour of the type |
| `Submission.Gate` | scripts.js:13-18 | a request is built exactly when the name is not blank, the trimmed address is valid and the message is not blank; the request carries the three trimmed values |
| `Submission.BlankFieldRefused` | scripts.js:13-18 | a field that is empty or only white space stops the submission |
| `Submission.GatedFieldsTrimmed` | scripts.js:13-18 | a request's name and message are non-empty, with no white space at either end |
| `Submission.GatedEmailMatches` | scripts.js:14-18 | a request's address has no white space and matches the pattern |
| `Submission.ValidAddressUnpadded` | scripts.js:14-18 | a valid address has no white space, matches the pattern and is its own trim |
| `Submission.GateIdempotent` | scripts.js:13-18 | the values a request carries pass the gate again, unchanged |
| `Submission.RegateTrimmed` | scripts.js:13-18 | already-trimmed, non-empty values with a valid address pass as they are |
| `Submission.OutcomeOf` | scripts.js:27-31 | the success step runs exactly when the status is OK and the body parses; a status that is not OK, a body that does not parse, and a failed `fetch` all reach `catch` |
| `Submission.ContactForm.constructor` | scripts.js:4 | a fresh page: empty fields, the toast as in the markup, nothing shown, nothing sent |
| `Submission.ContactForm.Fill` | scripts.js:13-15 | the inputs take the typed values, and nothing else changes |
| `Submission.ContactForm.Submit` | scripts.js:9-26 | the request is the gate applied to the fields as they stand; when there is one it is appended to what was sent, and when there is none nothing is sent; the fields, the toast and the notifications are unchanged |
| `Submission.ContactForm.Reset` | scripts.js:37 | the fields become empty and nothing else changes |
| `Submission.ContactForm.ReceiveAsWritten` | scripts.js:27-46 | on success the element is shown as it stands and the fields are cleared; on failure the element is rewritten with the error text and `danger` class and shown, and the fields are kept; nothing is sent either way |
| `Submission.ContactForm.Receive` | scripts.js:27-46 | as above, except that a success first restores the notice from the markup, so every success shows the markup's notice |
| `Submission.StaleNoticeAsWritten` | scripts.js:33-34 | on the handler as written, with `formToast` carrying the `success` class in the markup, a failure followed by a success shows the error notice for the success, which differs from the markup's notice |
| `Submission.FreshNotice` | scripts.js:33-34 | the same two replies on the corrected handler show the markup's notice for the success |
| `Nav.Split` | scripts.js:72 | `split('/')`: always at least one piece; it and `Nav.Join` (nav.dfy, no contract of its own) are pinned down by the round trips `JoinSplit` and `SplitJoin` and by `SplitPiecesClean` |
| `Nav.SplitPiecesClean` | scripts.js:72 | no piece of `split('/')` contains `/` |
| `Nav.JoinSplit` | scripts.js:72 | joining the pieces with `/` gives the path back |
| `Nav.SplitJoin` | scripts.js:72 | splitting a join of `/`-free pieces gives the pieces back |
| `Nav.SplitClean` | scripts.js:72 | a path without `/` splits into itself alone |
| `Nav.LastSegmentIsTail` | scripts.js:72 | specifies `Nav.LastSegment` (nav.dfy, no contract of its own): `pop()` returns the part after the last `/` (the whole path when there is none); it has no `/` |
| `Nav.LastSegmentEmpty` | scripts.js:72 | the last piece is empty exactly when the path is empty or ends in `/` |
| `Nav.CurrentPageShape` | scripts.js:72 | specifies `Nav.CurrentPage` (nav.dfy, no contract of its own): the page name is never empty and never holds `/`; it is `home` for an empty path or one ending in `/`, and the last piece otherwise |
| `Nav.HomeClausesDead` | scripts.js:82-84 | about `Nav.IsCurrent`, the three-clause test (nav.dfy, no contract of its own): for any page name the script can compute, the test holds exactly when the link's `href` equals the name, so the two `home` clauses never fire |
| `Nav.Highlighted` | scripts.js:75-87 | the links after the loop, one per link; what each becomes is stated by `HighlightLinks` (its specification), `HighlightedOnPage` and `HighlightIdempotent` |
| `Nav.HighlightedOnPage` | scripts.js:72-87 | after highlighting, every link keeps its `href` and is active exactly when its `href` is the page name, whatever it was before |
| `Nav.HighlightIdempotent` | scripts.js:75-87 | highlighting twice is the same as highlighting once |
| `Nav.HighlightLinks` | scripts.js:75-87 | after the loop every link keeps its `href` and is active exactly when the test holds for it |

## Left out

- The `fetch` call itself is left out: the URL, the headers and the JSON encoding of the body. A request is the record of the three trimmed values, and the reply is an input.
- Timing, and a second submission made before the first reply arrives, are left out. Replies are applied one at a time, in the order given.
- `e.preventDefault()`, the `console.log` and `console.error` calls, and the Bootstrap `Toast` object's animation are not modelled. Showing a notification means appending the element's current state to `shown`.
- The handler is modelled with `formToast` present. When it is absent, `showToast` only logs to the console. The success step, however, would throw on the missing element and so would reach `catch`. Neither path is modelled.
- An exception raised inside the success step goes to `catch` and would show the error after a delivered request. This is not modelled, because the DOM calls there cannot fail in this model.
- Submission.ContactForm.Reset: `form.reset()` restores the markup's default values. The markup is not part of this model, so the fields are cleared to empty strings.
- Toast.ShowToast: the default `type = 'success'` (scripts.js:203) is the call `ShowToast(message, "success")`; the page never calls `showToast` without a type.
- Submission.StaleNoticeAsWritten: the two replies are applied to a fresh page directly, without the `Fill` and `Submit` that would precede each in a real session. `ContactForm` does not record which request a reply answers, because driving the session through two submissions puts the whole gate (trim and the address test) into the proof and exceeds the resource limit.
- Chars.Lower: `toLowerCase` is modelled on ASCII letters only. Full Unicode case mapping can change a string's length and needs tables outside this model. No other letter affects the pattern, because white space, `@` and `.` keep their class.
- Chars.Trim: the white-space set is the one ECMAScript gives for `\s` and `trim`, taken as single UTF-16 code units. Dafny `char` values are used in their place.
- The scroll-to-top button (scripts.js:54-66) is not modelled: it depends on scroll events and the window position.
- The click handlers on `tel:` and `mailto:` links (scripts.js:100-118) are not modelled: they only log.
- The navbar shadow on scroll (scripts.js:123-133), the `IntersectionObserver` fade-in (scripts.js:139-156) and the page-view log lines (scripts.js:162-163) are not modelled: they are presentation and logging that depend on scroll position, viewport intersection and the console.
- Nav.HighlightLinks: `getAttribute('href')` may return `null`, so `href` is an `Option`. The text of the attribute is compared as written; the browser does not resolve it against the location.

## Findings

| source | as written | input that shows it | evidently intended | confidence | as-written member | corrected member |
|---|---|---|---|---|---|---|
| scripts.js:33-34, 42-45, 207-209 | a success shows `formToast` as it stands, but an earlier failure has rewritten that same element through `showToast`, with the error text and the `danger` class | one submission whose `fetch` fails, then one that succeeds: the success shows "Oops! Something went wrong…" in red | every success shows the markup's success notice | not executed | `Submission.StaleNoticeAsWritten` | `Submission.FreshNotice` |
