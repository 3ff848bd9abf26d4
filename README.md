# Road-safety predictor: a verified model of its record logic

The road-safety predictor has two halves. The Flask backend (`app.py`) turns a road record into the feature columns of an accident-severity model, and it keeps a user table and a prediction log. The React front end adds, among other pages:

- a sign-in page that keeps a `user` entry in `localStorage`;
- a registration form;
- a profile page;
- a route guard on that entry;
- a paginated, newest-first history table.

A small script (`temp.py`) repairs the stored history by replacing bare `NaN`, `Infinity` and `-Infinity` literals with `null`.

This project models those pieces in Dafny and proves what the code promises:

- the encoder's flag, ordinal and one-hot rules, and its fixed column order;
- duplicate-email refusal and the credential search;
- the page-window arithmetic, and that pages 1..n reassemble the list;
- the in-place reversal;
- the password rule's order of checks;
- the email-derived display name;
- stored-record round-trip: the JSON text the sign-in page writes is read back by the profile page as the same email and name;
- the guard's presence-only decision;
- exactly which occurrences the sanitiser rewrites.

Modules follow the source files:

| file | module | source |
|---|---|---|
| backend.dfy | `Backend` | app.py |
| history.dfy | `History` | src/pages/History.tsx |
| login.dfy | `LoginPage` | src/pages/Login.tsx |
| register.dfy | `RegisterPage` | src/pages/Register.tsx |
| profile.dfy | `ProfilePage` | src/pages/Profile.tsx |
| protected_route.dfy | `ProtectedRoute` | src/components/ProtectedRoute.tsx |
| sanitize.dfy | `Sanitize` | temp.py |

Four small modules support them:

- `Common`: `Option`, toasts, and JavaScript's `||` on strings.
- `Passwords`: the rule the two password forms share.
- `Storage`: `localStorage` as a class over a `map`.
- `Json`: `JSON.stringify` of the `{email, name}` record, and the part of `JSON.parse` that reads it back.

Stateful code keeps its form:

- Each page is a class whose fields are the component's state variables. Its methods take the handler's steps.
- An async handler is split at its `await` or `setTimeout` into two methods. The second method takes the values the deferred callback sees.
- The backend's `register` and `login` are methods with loops over the user table.
- `data.reverse()` is a loop on an `array` that swaps elements inward from both ends.

## Model

| member | source | states |
|---|---|---|
| Common.OrElse | src/pages/Profile.tsx:91 | JavaScript `or` on an optional string with a fallback: a non-empty value is kept; a missing value or "" gives the fallback |
| Common.Max | src/pages/History.tsx:200 | `Math.max`: at least both arguments, and one of them |
| Common.Min | src/pages/History.tsx:209 | `Math.min`: at most both arguments, and one of them |
| Storage.Lookup | src/components/ProtectedRoute.tsx:9 | `getItem` gives Some(value) exactly for a stored key, and None (JavaScript null) otherwise |
| Storage.LocalStorage.GetItem | src/components/ProtectedRoute.tsx:9 | `getItem` on the store: Some(value) exactly for a stored key, with the stored value; None otherwise |
| Storage.LocalStorage.SetItem | src/pages/Login.tsx:26 | the store afterwards is the old one with that one key set to the value |
| Storage.LocalStorage.RemoveItem | src/pages/Profile.tsx:57 | the store afterwards is the old one without that key, and nothing else changes |
| Json.Escape | src/pages/Login.tsx:26 | JSON.stringify's escaping of a string body, character by character; ParseEscaped states that JSON.parse undoes it |
| Json.Stringify | src/pages/Login.tsx:26 | the text `{"email":...,"name":...}` with keys in that order and no whitespace; ParseStringify and StringifyNonEmpty state its properties |
| Json.ParseStringBody | src/pages/Profile.tsx:13 | JSON.parse of a string literal body up to its closing quote, with the rest of the input; every JSON escape is read, surrogate pairs included; ParseEscaped states the round trip |
| Json.ParseUserObject | src/pages/Profile.tsx:13 | JSON.parse of "{}", or of an email-then-name object of strings without whitespace; ParseStringify states that it reads back the stored email and name |
| Passwords.Check | src/pages/Register.tsx:35-43 | three-way verdict: Mismatch iff the confirmation differs; TooShort iff confirmed and shorter than 6; Accepted iff confirmed and at least 6 |
| Passwords.MismatchReportedFirst | src/pages/Register.tsx:35-43 | an unconfirmed short password is reported as a mismatch, because the mismatch check runs first |
| Passwords.SixCharactersSuffice | src/pages/Register.tsx:40 | the bound is inclusive: 6 characters pass, 5 do not |
| ProtectedRoute.Guard | src/components/ProtectedRoute.tsx:9-15 | renders the children iff the entry is present and non-empty; otherwise redirects to /login with replace |
| ProtectedRoute.CheckAccess | src/components/ProtectedRoute.tsx:8-16 | the decision is Guard of the stored `user` entry; the method modifies nothing |
| ProtectedRoute.ContentsIrrelevant | src/components/ProtectedRoute.tsx:9-11 | any two non-empty entries get the same decision, so the contents never matter |
| ProtectedRoute.EmptyObjectAdmits | src/components/ProtectedRoute.tsx:11-15 | the text "{}" admits |
| Json.ParseEscaped | src/pages/Login.tsx:26 | reading a string literal written with JSON.stringify's escaping gives back the original text and the rest of the input |
| Json.ParseStringify | src/pages/Login.tsx:26 | JSON.parse of the stored `{email, name}` text gives an object with exactly that email and that name |
| Json.StringifyNonEmpty | src/pages/Login.tsx:26 | the stored text is never empty (it starts with a brace), so the guard admits after a login |
| Json.Unescape | src/pages/Profile.tsx:13 | JSON.parse of one escape after its backslash, consuming at least one character; EscapeCharParses, OtherEscapesRead and ParseEscaped state what it reads |
| Json.UnicodeEscape | src/pages/Profile.tsx:13 | a `\u` escape, or a surrogate pair of two, consuming at least its four digits; SurrogatePairRead and LoneSurrogateRefused state how surrogates are read |
| Json.Hex4 | src/pages/Profile.tsx:13 | four hexadecimal digits of either case have a value exactly when all four are digits, and it is below 0x10000 |
| Json.Combine | src/pages/Profile.tsx:13 | a high and a low surrogate stand for the code point 0x10000 + (high - 0xD800) * 0x400 + (low - 0xDC00), which lies in U+10000..U+10FFFF |
| Json.OtherEscapesRead | src/pages/Profile.tsx:13 | escapes JSON.stringify never writes are still read as JSON.parse reads them: `\/`, and hexadecimal digits of either case |
| Json.SurrogatePairRead | src/pages/Profile.tsx:13 | the escaped pair for U+1F600 reads as that one character |
| Json.LoneSurrogateRefused | src/pages/Profile.tsx:13 | a high or a low surrogate escape on its own gives None |
| LoginPage.Split | src/pages/Login.tsx:26 | `split` with a one-character separator gives at least one piece, and no piece contains the separator |
| LoginPage.JoinSplit | src/pages/Login.tsx:26 | joining the pieces with the separator gives back the original text |
| LoginPage.FirstPiece | src/pages/Login.tsx:26 | the first piece is a prefix of the text, ending at the first separator or at the end of the text |
| LoginPage.EmailName | src/pages/Login.tsx:26 | `email.split("@")[0]` is the longest '@'-free prefix of the email: all of it when there is no '@', and empty when it starts with '@' |
| LoginPage.EmailNameUnique | src/pages/Login.tsx:26 | the three properties in EmailName's contract determine the name uniquely |
| LoginPage.Accepts | src/pages/Login.tsx:24 | `email && password`: true exactly when both fields are non-empty; no credential store is consulted |
| LoginPage.SessionRecord | src/pages/Login.tsx:26 | the stored record holds the email as given and, as name, its longest '@'-free prefix |
| LoginPage.EmailNameExamples | src/pages/Login.tsx:26 | "ann@example.com" gives "ann"; "ann" gives "ann"; "@example.com" gives "" |
| LoginPage.LoginForm.constructor | src/pages/Login.tsx:12-15 | empty fields, not loading, no error |
| LoginPage.LoginForm.Submit | src/pages/Login.tsx:17-20 | clears the error and sets the busy flag; the returned attempt holds the field values the deferred callback sees |
| LoginPage.LoginForm.Settle | src/pages/Login.tsx:23-35 | both fields non-empty: stores Stringify({email, name}) under "user", shows the "Login successful" toast, navigates to /dashboard, and the guard then admits. Otherwise: stores nothing, shows no toast, and sets the error "Please enter valid credentials". The busy flag is false after either branch |
| RegisterPage.ValidationError | src/pages/Register.tsx:35-43 | None iff the password rule accepts; otherwise "Passwords do not match" for a mismatch, checked first, or the length message |
| RegisterPage.OutcomeError | src/pages/Register.tsx:60-72 | None iff the response is ok; a non-ok response shows `data.message`, or "Registration failed" when that is absent or empty; a thrown error shows "Cannot reach server" |
| RegisterPage.RegisterForm.constructor | src/pages/Register.tsx:14-22 | empty fields, not loading, no error |
| RegisterPage.RegisterForm.Submit | src/pages/Register.tsx:30-55 | clears the error first. A failed check sets its message, sends nothing and leaves the busy flag alone. Otherwise it sends {name, email, password} without the confirmation, and the form is busy |
| RegisterPage.RegisterForm.Complete | src/pages/Register.tsx:58-74 | success shows the "Registration successful" toast and navigates to /login; a failure sets OutcomeError's message and stays; the busy flag is false afterwards |
| RegisterPage.DuplicateEmailShown | src/pages/Register.tsx:68 | the backend's message "Email already exists" is shown as it is |
| RegisterPage.MissingMessageFallsBack | src/pages/Register.tsx:68 | a non-ok reply with no message, or an empty one, shows "Registration failed" |
| ProfilePage.DisplayName | src/pages/Profile.tsx:91 | never empty; either "User" or the stored name; "User" exactly when the name is absent, empty or literally "User" |
| ProfilePage.DisplayEmail | src/pages/Profile.tsx:98 | never empty; either "user@example.com" or the stored email; the fallback exactly when the email is absent, empty or that literal |
| ProfilePage.RejectionToast | src/pages/Profile.tsx:25-41 | None iff the shared password rule accepts; a mismatch, checked first, gives "New passwords do not match"; a short confirmed password gives the length toast |
| ProfilePage.ReadUser | src/pages/Profile.tsx:13 | JSON.parse of the stored "user" entry, with "{}" in place of a missing or empty one: a missing or empty entry reads as the empty object; any other entry is parsed as it is |
| ProfilePage.Profile.constructor | src/pages/Profile.tsx:15-20 | the three password fields are empty and the form is idle |
| ProfilePage.Profile.HandlePasswordChange | src/pages/Profile.tsx:22-43 | the toast is RejectionToast of the new and confirm fields, and the current password is never read. A rejection changes no field and not the busy flag; acceptance sets the busy flag |
| ProfilePage.Profile.PasswordUpdated | src/pages/Profile.tsx:46-53 | the deferred callback clears all three fields, clears the busy flag, and shows "Password updated" |
| ProfilePage.Profile.HandleLogout | src/pages/Profile.tsx:56-62 | removes only the "user" key, shows the "Logged out" toast and navigates to /login; the guard then redirects |
| ProfilePage.SignedOutFallbacks | src/pages/Profile.tsx:13-98 | with no stored entry the page parses "{}" and shows "User" and "user@example.com" |
| ProfilePage.ShowsSignedInUser | src/pages/Profile.tsx:13-98 | after a login with a non-empty email the page shows that email, and shows the derived name (or "User" when the email starts with '@') |
| History.TotalPages | src/pages/History.tsx:73 | `ceil(length / 5)`: the fewest pages of five that hold every row |
| History.StartIndex | src/pages/History.tsx:74 | `(currentPage - 1) * itemsPerPage`; its properties are stated by CurrentData, PageRows and FooterCountsRows |
| History.EndIndex | src/pages/History.tsx:75 | `startIndex + itemsPerPage`; its properties are stated by CurrentData, PageRows and FooterCountsRows |
| History.ClampIndex | src/pages/History.tsx:76 | `slice`'s index reading: a negative index counts from the end, and the result is clamped to 0..length |
| History.Slice | src/pages/History.tsx:76 | `slice(start, end)`: max(to - from, 0) elements, where from and to are the clamped indices; element k is the list element at from + k |
| History.CurrentData | src/pages/History.tsx:74-76 | at most 5 rows. For page >= 1 the rows are the contiguous window (p-1)*5 .. p*5, cut off at the end; page 0 shows nothing |
| History.RowIndex | src/pages/History.tsx:126-127 | `startIndex + index`; PageRows states that it is the list position of the row shown |
| History.PageRows | src/pages/History.tsx:126-127 | on a page within 1..totalPages, the row at local index k is the list element at globalIndex = startIndex + k, and the page is not empty |
| History.PagePastEndEmpty | src/pages/History.tsx:74-76 | a page past the last one shows nothing |
| History.PagesUpTo | src/pages/History.tsx:74-76 | the rows of pages 1..k, in page order; PagesUpToPrefix and PagesReassemble state what they are |
| History.PagesUpToPrefix | src/pages/History.tsx:74-76 | the rows of pages 1..k, in order, are the first min(5k, length) list elements |
| History.PagesReassemble | src/pages/History.tsx:73-76 | concatenating pages 1..totalPages reproduces the list exactly |
| History.FooterOf | src/pages/History.tsx:192-193 | the numbers startIndex + 1, min(endIndex, length) and length of the footer; FooterCountsRows and EmptyFooter state their meaning |
| History.FooterCountsRows | src/pages/History.tsx:192-193 | "Showing a to b of n": 1 <= a <= b <= n; the page holds b-a+1 rows; its first and last rows are list elements a and b, counting from one |
| History.EmptyFooter | src/pages/History.tsx:192-193 | an empty list reads "Showing 1 to 0 of 0" |
| History.PageZeroFooter | src/pages/History.tsx:73-76 | on an empty list Next from page 1 reaches page 0, where the footer (lines 192-193) reads "Showing -4 to 0 of 0 entries" and no row is shown |
| History.PrevPage | src/pages/History.tsx:200 | `Math.max(1, p - 1)`; NavigationInRange and EmptyListNext state its range |
| History.NextPage | src/pages/History.tsx:209 | `Math.min(totalPages, p + 1)`; NavigationInRange and EmptyListNext state its range |
| History.NavigationInRange | src/pages/History.tsx:200-210 | from a page in 1..total, Previous and Next stay in 1..total, moving by one where they can |
| History.EmptyListNext | src/pages/History.tsx:209-210 | with no rows the page count is 0, so Next is enabled on page 1 and moves to page 0; Previous returns to 1 |
| History.Toggle | src/pages/History.tsx:78-80 | collapses when index `i` is the open row, otherwise opens exactly `i`, so at most one row is open |
| History.ToggleTwice | src/pages/History.tsx:78-80 | toggling the same row twice restores a closed or that-row-open state |
| History.Reversed | src/pages/History.tsx:51 | the reversal keeps the length; ReversedAt and NewestFirst state its order |
| History.ReversedAt | src/pages/History.tsx:51 | element k of the reversed list is element n-1-k of the fetched one |
| History.NewestFirst | src/pages/History.tsx:51 | the entry appended last by the backend is shown first |
| History.ReverseInPlace | src/pages/History.tsx:51 | `data.reverse()`: afterwards the array holds the reversal of its old contents |
| History.HistoryPage.constructor | src/pages/History.tsx:30-33 | empty list, no open row, page 1, not refreshing |
| History.HistoryPage.BeginRefresh | src/pages/History.tsx:42 | the page is refreshing; the page number stays valid |
| History.HistoryPage.Loaded | src/pages/History.tsx:50-65 | the list becomes the reversed response, with the array itself reversed; the rows on screen are the current page of that reversal; the "History Updated" toast; not refreshing; page and open row kept |
| History.HistoryPage.LoadFailed | src/pages/History.tsx:57-65 | the list is kept; the error toast shows the message, or "Cannot reach the backend" when it is empty; not refreshing |
| History.HistoryPage.Previous | src/pages/History.tsx:200-201 | disabled on page 1; otherwise the page becomes max(1, p-1); the page stays >= 1 |
| History.HistoryPage.Next | src/pages/History.tsx:209-210 | disabled when the page equals the page count; otherwise the page becomes min(totalPages, p+1); the page stays >= 0 |
| History.HistoryPage.ToggleRow | src/pages/History.tsx:78-80 | the open row becomes Toggle of the old one; the page number is untouched |
| Sanitize.IsSpace | temp.py:12-14 | Python's `\s` on str: the characters for which `str.isspace()` holds |
| Sanitize.LeftDelimiter | temp.py:12-14 | the lookbehind class `[:\s,\[\{]` |
| Sanitize.RightDelimiter | temp.py:12-14 | the lookahead class `[\s,\]\}]` |
| Sanitize.MatchAt | temp.py:12-14 | the pattern matches at i: the token is there, with a left delimiter just before it and a right delimiter just after it, so a token at either end never matches |
| Sanitize.SubFrom | temp.py:12-14 | `re.sub` from position i over the original text; SubFromIsScan and SubIsPointwise state what it outputs |
| Sanitize.Sub | temp.py:12-14 | one pass over the whole text; SubIsPointwise states its output position by position |
| Sanitize.Sanitize | temp.py:12-14 | the three passes in the order NaN, Infinity, -Infinity; the theorems below state what they rewrite |
| Sanitize.Matches | temp.py:12 | position j is marked iff the pattern (lookbehind, token, lookahead) matches the original text at j |
| Sanitize.MatchesSeparated | temp.py:12-14 | for each of the three tokens, a match leaves room for the token and no other match starts inside it |
| Sanitize.SubFromIsScan | temp.py:12 | the `re.sub` scan equals the scan over the precomputed match positions |
| Sanitize.ScanAgrees | temp.py:12 | from an uncovered position the scan output equals the position-by-position description |
| Sanitize.SubIsPointwise | temp.py:12-14 | one pass outputs, in order: "null" where a delimited token starts, nothing for the rest of that token, and every other character unchanged |
| Sanitize.NoMatchUnchanged | temp.py:12-14 | where the pattern matches nowhere from i on, the pass copies the text from i unchanged |
| Sanitize.Absent | temp.py:12-14 | a text without the token's first character is unchanged |
| Sanitize.TokensArePlain | temp.py:12-14 | no character of NaN, Infinity or -Infinity is a left delimiter |
| Sanitize.MinusInfinitySurvivesInfinityPass | temp.py:13-14 | a delimited -Infinity is not an Infinity match, because '-' is not a left delimiter |
| Sanitize.OutPos | temp.py:12-14 | the place in one pass's output where the contributions of input positions 0..j-1 end; it lies within the output |
| Sanitize.TwoPassPos | temp.py:12-13 | OutPos through the NaN pass and then the Infinity pass; it lies within the text after those two passes |
| Sanitize.SanitizedPos | temp.py:12-14 | OutPos through all three passes; it lies within the sanitised text |
| Sanitize.GuardedKept | temp.py:12-14 | a stretch that starts with a left delimiter and holds no delimited start of the token comes through the pass unchanged, starting at OutPos of its first character |
| Sanitize.MatchReplaced | temp.py:12-14 | a delimited token comes out of its pass as "null" between the same two delimiters, starting at OutPos of the delimiter before it |
| Sanitize.NaNBecomesNull | temp.py:12-14 | for every text, each delimited NaN comes out of the three passes as "null" between its two delimiters, at SanitizedPos of the delimiter before it |
| Sanitize.InfinityBecomesNull | temp.py:12-14 | for every text, each delimited Infinity is kept by the NaN pass and comes out of the three passes as "null" between its two delimiters, at SanitizedPos of the delimiter before it |
| Sanitize.MinusInfinityStillDelimited | temp.py:12-14 | for every text, each delimited -Infinity is, after the NaN and Infinity passes, a delimited -Infinity between the same two characters, with the delimiter before it at TwoPassPos |
| Sanitize.MinusInfinityBecomesNull | temp.py:12-14 | for every text, each delimited -Infinity comes out of the three passes as "null" between its two delimiters, at SanitizedPos of the delimiter before it |
| Sanitize.GuardedSurvives | temp.py:12-14 | for every text, a stretch in which no N, I or minus sign follows a left delimiter comes out of the three passes unchanged, at SanitizedPos of its first character |
| Sanitize.QuotedNaNSurvives | temp.py:12-14 | for every text, a quoted "NaN" after a delimiter comes out of the three passes unchanged |
| Sanitize.CleanTextUnchanged | temp.py:12-14 | a text with no delimited NaN, Infinity or -Infinity passes all three passes unchanged |
| Sanitize.AdjacentNaNPass | temp.py:12 | the NaN pass turns "[NaN,NaN]" into "[null,null]": the lookarounds are zero-width |
| Sanitize.AdjacentTokens | temp.py:12-14 | the three passes turn "[NaN,NaN]" into "[null,null]" |
| Sanitize.NoInfinityInMinusInfinity | temp.py:13 | the Infinity pass leaves "[-Infinity]" alone |
| Sanitize.MinusInfinityReplaced | temp.py:12-14 | the three passes, in order, turn "[-Infinity]" into "[null]" |
| Sanitize.QuotedKept | temp.py:12-14 | the quoted "NaN" in ["NaN"] is untouched |
| Sanitize.TrailingKept | temp.py:12-14 | a token at the end of the text ("[NaN") is untouched, because the lookahead needs a character |
| Backend.BinFlag | app.py:59-63 | "Yes" gives 1, "No" gives 0, any other value gives missing (never 0 or 1) |
| Backend.Lower | app.py:70 | same length, each character lower-cased |
| Backend.LowerIdempotent | app.py:70 | lower-casing twice equals lower-casing once |
| Backend.TimeIndex | app.py:72-74 | the ordinal is below 3; a positive ordinal n means the name is TimeOrder[n]; 0 exactly when the name is neither afternoon nor evening (morning, or unknown and filled with 0) |
| Backend.TimeNumIgnoresCase | app.py:70-74 | the ordinal does not depend on the case of A-Z |
| Backend.CapitalisedEvening | app.py:70-74 | "Evening" is lower-cased and maps to 2 |
| Backend.UnknownTimeIsMorning | app.py:72-74 | an unknown name ("night") maps to 0 |
| Backend.OneHot | app.py:80-90 | one indicator per category, in order; indicator k is 1 iff the value equals category k exactly (case-sensitive), else 0 |
| Backend.OneHotExactlyOne | app.py:80-90 | over distinct categories at most one indicator is 1, and one is 1 iff the value is one of the categories |
| Backend.Indicator | app.py:80-90 | `(column == category).astype(int)`: 1 iff the value equals the category exactly (case-sensitive), 0 iff it differs |
| Backend.TimeNum | app.py:70-74 | the phase is below 3; a positive phase n means the lower-cased name is TimeOrder[n]; 0 exactly when the lower-cased name is neither afternoon nor evening (the `fillna(0)` default) |
| Backend.Preprocess | app.py:56-102 | exactly 19 columns, named as FINAL_COLS in that order |
| Backend.ValuesOf | app.py:101-102 | the values of the row's columns, position by position |
| Backend.FinalColsDistinct | app.py:92-99 | no name in FINAL_COLS repeats, so each name picks out one column |
| Backend.FlagColumnsByName | app.py:59-63 | the columns road_signs_present, public_road, holiday and school_season hold the Yes/No map of the same-named fields |
| Backend.NumericColumnsByName | app.py:65-68 | the columns num_lanes, curvature, speed_limit and num_reported_accidents hold the coercion of the same-named fields |
| Backend.TimeColumnsByName | app.py:70-78 | the columns time_sin and time_cos hold the sine and cosine of the phase of the lower-cased time of day |
| Backend.IndicatorColumnsByName | app.py:80-90 | each rt_, lt_ and wtr_ column holds the indicator of its own field against its own category |
| Backend.GroupsOfRow | app.py:80-101 | columns 8-10, 11-13 and 14-16 of the row are the one-hot encodings of road type, lighting and weather |
| Backend.GroupFromColumns | app.py:80-90 | three consecutive columns holding a value's indicators against three categories are its one-hot encoding |
| Backend.PreprocessOneHot | app.py:80-101 | in each of the three groups at most one column is 1, and one is 1 iff the field holds one of the three known values |
| Backend.GroupOneHot | app.py:80-90 | a window of columns equal to a one-hot encoding has at most one 1, and has a 1 iff the value is known |
| Backend.Register | app.py:120-142 | a taken email gives 400 "Email already exists" with the table unchanged. Otherwise exactly one {name, email, password} row is appended at the end, with 200 "Registration successful". Email uniqueness of the table is preserved |
| Backend.Login | app.py:150-165 | 200 "Login successful" with user {email} iff some row matches both email and password; otherwise 401 "Invalid email or password" |
| Backend.RegisteredCanLogIn | app.py:134-165 | after a row is appended, its email and password log in |
| Backend.RegistrationKeepsLogins | app.py:134-165 | appending a row never locks out a user who could log in before |
| Backend.SaveHistory | app.py:26-33 | the log grows by one; the old entries are unchanged and in place; the new entry is last |

## Left out

- I/O is left out: `fetch`, Flask routing and CORS, `request.json`, and the JSON files (`load_users`, `save_users`, the history file, the file read and write in `temp.py`). The user table and the log are sequences passed in and returned.
- The XGBoost model, the `/api/predict` route, `pred_value` rounding, and the `/api/history` route are left out. They are a foreign library, floating point, and I/O.
- Backend.Preprocess: the four numeric fields stay symbolic (`Numeric(raw)`), and so do the sine and cosine columns (`TimeSin(n)`, `TimeCos(n)`). `pd.to_numeric` and the trigonometry are floating point.
- Backend.Lower: lower-cases A-Z only, where Python's `str.lower` covers all of Unicode. For the time ordinal this makes no difference: no other character lower-cases to form morning, afternoon or evening.
- Backend.Preprocess: a record missing a key (a `KeyError` in pandas) is not modelled. Every field is present as text.
- Backend.BinFlag: a non-string JSON value (number, boolean, null) is not modelled. Every field is text, so anything outside "Yes" and "No" is missing.
- src/pages/Predict.tsx, src/pages/Dashboard.tsx and src/components/Navbar.tsx are not part of this model. They hold float coercion, a fetch, static chart data, and a logout that duplicates Profile's.
- Timing is left out: `setTimeout` delays, overlapping submissions, and React re-render timing. Each deferred callback is a second method that takes the values it sees. Toasts are returned as values, not displayed.
- Passwords.Check: lengths count Dafny characters, not the UTF-16 code units of JavaScript's `.length`. They differ only for characters outside the Basic Multilingual Plane.
- Json.ParseUserObject accepts two shapes: "{}", and `{"email":...,"name":...}` with string values, keys in that order and no whitespace. This covers every text the pages write. Whitespace, other key orders, missing or extra keys, and non-string values all give None, as does malformed text. General `JSON.parse` is not modelled; its exception on malformed text has no counterpart here.
- Json.ParseStringBody: a `\u` escape of a lone surrogate (one not in a high-low pair) gives None. JSON.parse would give a string holding an unpaired UTF-16 unit, which a Dafny character cannot hold. Surrogate pairs are decoded. The pages never write either form, because JSON.stringify writes characters beyond U+FFFF as they are.
- The commented-out older Register implementation (src/pages/Register.tsx:173-307) is not part of this model.
- Sanitize: the `json.loads` check and the rewrite of the file after the passes are I/O and left out. Only the three substitutions are modelled.
