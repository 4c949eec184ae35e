# Prompt app client rules, modelled in Dafny

This project models the local rules of a mobile client for AI-generated image prompts. The
app's own logic is small. Persistence, authentication and text generation all go through
hosted services. What remains, and what is modelled here as total functions over strings,
integers and small datatypes, is:

- **Registration and login forms.** The ordered validation chain on both screens. The
  first failing check decides the error, in this order: empty fields, email pattern, trimmed
  username length, password length, confirmation. Lengths are JavaScript's `length`, in UTF-16
  code units. Also modelled: the credentials each screen
  sends, the profile row a new account starts with (50 credits, no shares, not premium), and
  how each screen reacts to the authentication service's reply.
- **Email pattern.** The regular expression `^[^\s@]+@[^\s@]+\.[^\s@]+$` appears twice. One
  form is the language it matches (`Email.MatchesEmailRegex`). The other is a structural
  check (`Email.IsEmail`): no whitespace, exactly one `@`, a non-empty local part, and a
  domain with an inner `.`. The two are proved equal.
- **Prompt-request helpers.** These are:
  - choosing the image MIME type from the lower-cased last `.`-separated piece of the URI;
  - cutting the base64 payload out of a data URL (RFC 2397) the way the code does, with
    `split(',')[1] || whole`;
  - composing the user message from an optional description;
  - rejecting a blank reply and trimming an accepted one;
  - classifying caught errors by priority: invalid key, quota, safety, own message, default.
- **Session guard.** The root layout's redirect rule on `(loading, session, first route
  segment)`. Also modelled: the loading/session state, driven by the initial session fetch
  and by authentication-change notifications.
- **Prompt card.** The flip toggle, its animation target and face visibility. Also the
  relative-date buckets of `formatDate`, over integer milliseconds.

`Text` gives the ECMAScript primitives these rules use:

- whitespace, as both `\s` and `String.prototype.trim` define it (one character set);
- `trim`;
- `length`, counted in UTF-16 code units;
- `split` on one character, proved inverse to joining;
- ASCII lower-casing;
- `includes`;
- decimal rendering of a number.

Services are parameters: the sign-up, sign-in and insert replies, the data URL produced by
the file reader, the generative model's reply, the arrival order of authentication events,
and the calendar formatting of old dates.

Files: `wrappers.dfy` (Option, Result), `text.dfy`, `email.dfy`, `auth_forms.dfy`,
`gemini.dfy` (modules `GeminiMessages` and `Gemini`), `session_guard.dfy`, `prompt_card.dfy`.

## Model

| member | source | states |
|---|---|---|
| Text.Split | src/services/geminiApi.ts:67 | `split` on one character gives at least one piece, and no piece contains the separator. |
| Text.JoinSplit | src/services/geminiApi.ts:67 | Joining the pieces of `split` with the separator gives back the input. |
| Text.SplitJoin | src/services/geminiApi.ts:31 | Splitting separator-free parts joined by the separator returns exactly those parts, so split and join are mutual inverses. |
| Text.LastPiece | src/services/geminiApi.ts:67 | The last piece of `split` is the tail of the text after its last separator, or the whole text when it has no separator. |
| Text.Trim | app/auth/register.tsx:31 | The result of `trim` is never longer than the input and neither starts nor ends with whitespace. |
| Text.TrimParts | app/auth/register.tsx:31 | The input is whitespace, then its trim, then whitespace: `trim` only cuts characters off the two ends. |
| Text.TrimUnique | app/auth/register.tsx:31 | Whenever a string is whitespace, then a piece that neither starts nor ends with whitespace, then whitespace, its trim is exactly that piece. |
| Text.TrimIgnoresPadding | app/auth/register.tsx:31-34 | Whitespace added on either side of a string never changes its trim. |
| Text.SpaceChars | app/auth/register.tsx:24 | `\s` and `trim` use one whitespace set (`Text.IsSpace`). Below U+0080 it is exactly tab, line feed, vertical tab, form feed, carriage return and space. None of its members lies outside the Basic Multilingual Plane. |
| Text.DecimalRoundTrip | components/PromptCard.tsx:79 | The decimal text of a number reads back as that number. |
| Text.Decimal | components/PromptCard.tsx:79 | `${n}` of a whole number is at least one digit, only digits, and has no leading zero unless the number is 0. |
| Text.Utf16Length | app/auth/register.tsx:31 | `length` is between the number of characters and twice that, and is 0 only for the empty string. |
| Text.Utf16LengthCountsAstral | app/auth/register.tsx:37 | `length` equals the number of characters iff no character lies outside the Basic Multilingual Plane. |
| Text.Utf16LengthConcat | app/auth/register.tsx:31-37 | The `length` of a concatenation is the sum of the lengths. |
| Text.Lower | src/services/geminiApi.ts:67 | `toLowerCase` keeps the length and maps each character on its own: an ASCII capital becomes its small letter, and no ASCII capital is left. |
| Text.ContainsInfix | src/services/geminiApi.ts:164-176 | `includes` finds the needle wherever it occurs in the text. |
| Text.ContainsChars | src/services/geminiApi.ts:164-176 | If a text includes a needle, every character of the needle occurs in the text. A text without `_`, `Q` and `S` therefore includes none of the three markers. |
| Email.IsEmailMatchesRegex | app/auth/register.tsx:24-25 | The structural check holds iff the email regex matches: no whitespace, exactly one `@`, a non-empty local part, and a `.` in the domain that is neither its first nor its last character. |
| Email.EmailTrimIsIdentity | app/auth/register.tsx:52 | A valid address has no whitespace, so `email.trim()` is the validated string itself. |
| AuthForms.ValidateRegistration | app/auth/register.tsx:18-45 | Each verdict holds exactly when every earlier check passes and its own check fails. The order is: empty field; regex; trimmed username < 3 UTF-16 code units; untrimmed password < 6 code units; confirmation differs. `Ok` holds iff all checks pass. |
| AuthForms.RegisterMessage | app/auth/register.tsx:19-43 | Every failed check has a non-empty alert text. |
| AuthForms.RegisterMessageNamesReason | app/auth/register.tsx:19-43 | Two failed checks get the same alert text only when they are the same check, so the alert tells which check failed. |
| AuthForms.UsernamePaddingIgnored | app/auth/register.tsx:31-34 | For a non-empty username, surrounding whitespace never changes the verdict. Only the trimmed length is measured. |
| AuthForms.BlankUsernameIsShort | app/auth/register.tsx:18-34 | A whitespace-only username passes the empty-field check. It then fails the length check whenever the email is valid. |
| AuthForms.ThrownMessage | app/auth/register.tsx:122-125 | A caught error shows its own message when that is non-empty, and otherwise the generic text. It is never empty. |
| AuthForms.NewProfile | app/auth/register.tsx:71-77 | The new row has the account's id, the trim of the typed username, 50 credits, no shared prompts and no premium. |
| AuthForms.NewProfileIgnoresPadding | app/auth/register.tsx:73 | Whitespace typed around the username never reaches the stored row. |
| AuthForms.Register | app/auth/register.tsx:16-125 | A failed check ends with its own alert text. Sign-up is called iff validation passes, with exactly the validated email and password. A profile row is handed to the insert iff sign-up returns a user. The row has that user's id, the trimmed username (≥ 3 code units, trimmed), 50 credits and 0 shares, and is not premium. An insert error ends in the profile-incomplete outcome. Success leads to the gallery iff a session exists. |
| AuthForms.RegisterAlerts | app/auth/register.tsx:56-125 | After validation passes: a sign-up error alerts the service's message, and a missing user alerts "Kullanıcı oluşturulamadı". A throw in either call alerts the thrown message, or the generic text when it has none. An insert error shows the warning "Hesap oluşturuldu ancak profil kaydı tamamlanamadı…" and goes to the login screen. |
| AuthForms.ValidateLogin | app/auth/login.tsx:14-24 | An empty email or password gives the empty-field error first. Otherwise a failed regex gives the email error. There is no password-length rule: any non-empty password with a matching email passes. |
| AuthForms.LoginMessage | app/auth/login.tsx:15-22 | Each failed login check has a non-empty alert text. The text equals the registration screen's invalid-email text exactly when the email check failed. |
| AuthForms.SameEmailRule | app/auth/login.tsx:20-24 | With all other fields filled, login rejects an email iff registration does. |
| AuthForms.Login | app/auth/login.tsx:13-39 | A failed check alerts its own text and calls nothing. Sign-in is called iff validation passes, with the validated email unchanged. Afterwards loading is off. A sign-in error alerts its message and never redirects. A successful sign-in alerts nothing. A gallery redirect happens iff there is no error and a session exists. |
| Gemini.MimeForExtension | src/services/geminiApi.ts:68-80 | png, gif and webp each map to their own type, and only they do. Every other extension, jpg and jpeg included, maps to image/jpeg. |
| Gemini.Extension | src/services/geminiApi.ts:67 | `split('.').pop()` has no `.`. It is a tail of the URI, and it is either the whole URI or preceded by a `.`. |
| Gemini.ExtensionUnique | src/services/geminiApi.ts:67 | Any dot-free tail of the URI that is the whole URI or follows a `.` is the extension, so those facts pin it down. |
| Gemini.MimeType | src/services/geminiApi.ts:66-81 | The type is always one of the four image MIME types. |
| Gemini.MimeOfDottedName | src/services/geminiApi.ts:67 | For `p.e` where `e` has no dot, the type depends on lower-cased `e` alone. |
| Gemini.MimeOfUndottedName | src/services/geminiApi.ts:78-79 | A URI without a dot is classified by its whole lower-cased text, so anything other than `png`, `gif` and `webp` gives image/jpeg. |
| Gemini.MimeIgnoresCase | src/services/geminiApi.ts:67 | Two names whose extensions differ only in letter case get the same type. |
| Gemini.MimeOfLowered | src/services/geminiApi.ts:67 | Lower-casing the whole URI never changes its type. |
| Gemini.Base64Payload | src/services/geminiApi.ts:49 | The result is either the whole input or a non-empty, comma-free piece. Input without a comma is returned whole. |
| Gemini.PayloadIsSecondField | src/services/geminiApi.ts:31 | For any input with at least one comma, the result is the text between the first comma and the next one (or the end). If that text is empty, the result is the whole input. |
| Gemini.DataUrlPayload | src/services/geminiApi.ts:47-49 | For `data:<type>;base64,<payload>` with a comma-free type and a non-empty, comma-free payload, the result is exactly the payload. |
| Gemini.EmptyPayloadFallsBack | src/services/geminiApi.ts:31 | When the text between the first and second comma is empty, the whole input is returned. |
| Gemini.UserMessage | src/services/geminiApi.ts:117-121 | The message always starts with the fixed request. It is exactly that request when the description is absent or blank. |
| Gemini.UserMessageRoundTrip | src/services/geminiApi.ts:117-121 | The description can be read back from the message iff it was present and not blank, and what is read back is its trim. |
| Gemini.CheckReply | src/services/geminiApi.ts:155-159 | A reply is rejected iff it is all whitespace, with the empty-reply error. An accepted reply is returned trimmed, non-empty and without surrounding whitespace. |
| Gemini.ClassifyError | src/services/geminiApi.ts:160-184 | Priority order: containing `API_KEY` gives the invalid-key text. Else containing `QUOTA` gives the quota text. Else containing `SAFETY` gives the safety text. Else the error's own non-empty message. Else the default text. |
| Gemini.ClassifyIdempotent | src/services/geminiApi.ts:164-184 | A classified message carries no marker, and classifying it again leaves it unchanged. |
| Gemini.GeneratePrompt | src/services/geminiApi.ts:20-186 | Without an API key, no request is sent and the missing-key text is returned. A failed fetch of the image gives the image-processing text. A failed file reader gives the default text, because its rejection escapes the converter's handler. Otherwise the request carries the data-URL payload, the MIME type and the user message. The call succeeds iff the reply text is not blank, and then returns its trim. A thrown reply gives its classified message. A surfaced error never carries a marker. |
| SessionGuard.Guard | app/_layout.tsx:73-86 | No redirect while loading. Otherwise login iff signed out and not in `(auth)`/`auth`, and gallery iff signed in and in one of them. In every other case there is no redirect. |
| SessionGuard.RedirectSettles | app/_layout.tsx:76-85 | With the same session, the guard issues no further redirect at the target of its own redirect. |
| SessionGuard.SettledPlaces | app/_layout.tsx:76-85 | A signed-in user under `(tabs)`, or a signed-out user in `auth`/`(auth)`, is never redirected. |
| SessionGuard.Step | app/_layout.tsx:56-71 | Both events replace the session with the one they report. Only the initial fetch clears loading. |
| SessionGuard.Run | app/_layout.tsx:56-71 | Events update the state one at a time in arrival order. With no events the state is unchanged. Once loading is off, no event turns it back on. |
| SessionGuard.RunConcat | app/_layout.tsx:56-71 | Running events in two batches gives the same state as running them all at once. |
| SessionGuard.LoadingUntilFetched | app/_layout.tsx:51-68 | After any sequence of events, loading is on iff it was on at the start and no initial-fetch event occurred. |
| SessionGuard.SessionIsLatest | app/_layout.tsx:58-68 | After any non-empty sequence of events, the session is the one the latest event reported. |
| SessionGuard.NoRedirectBeforeFetch | app/_layout.tsx:52-74 | From mount until the initial fetch completes, the guard never redirects, whatever authentication changes arrive. |
| PromptCard.Flip | components/PromptCard.tsx:31-48 | A tap negates the flipped state. The animation heads to 180 when flipping to the back and to 0 when flipping back, i.e. to the new state's resting angle. |
| PromptCard.FlipTwice | components/PromptCard.tsx:47 | Two taps restore the flipped state and its resting angle. |
| PromptCard.VisibleFace | components/PromptCard.tsx:93-152 | The visible face is the front iff the front is not hidden, and the back iff the back is not hidden. |
| PromptCard.ExactlyOneFace | components/PromptCard.tsx:98-151 | Exactly one face is hidden at a time, and every tap changes the visible face. |
| PromptCard.DiffDays | components/PromptCard.tsx:71-72 | The whole-day difference `d` satisfies `d` days ≤ the absolute difference in ms < `d`+1 days. |
| PromptCard.Bucket | components/PromptCard.tsx:74-86 | Today iff less than a day apart; yesterday iff 1 to 2 days. Days-ago iff 2 to 7 days, with a count 2..6 equal to the whole days elapsed. Calendar iff at least 7 days, keeping the date. |
| PromptCard.FormatDate | components/PromptCard.tsx:68-87 | "Bugün" under a day, "Dün" under two days, and "<n> gün önce" under a week. Otherwise the calendar text of the date. |
| PromptCard.FutureLikePast | components/PromptCard.tsx:71 | Within a week, a date d ms ahead shows the same text as one d ms behind. |
| PromptCard.DaysAgoText | components/PromptCard.tsx:78-79 | The days-ago text holds a single digit that reads back as the number of whole days elapsed. |

## Left out

- Network and device calls are left out. That covers `fetch`, `Blob`, `FileReader`, the generative-model SDK call and its configuration, and all hosted-service calls. Their results are parameters, so the model checks how the code reacts to every possible reply.
- The system instruction text and generation parameters sent to the model are left out. They are fixed data with no logic.
- The storage and authentication client wrappers (`src/services/supabase.ts`) and the build configuration (`babel.config.js`) are not part of this model. They only forward calls.
- `Alert`, router calls and React state hooks are modelled as returned values: alert messages, routes and redirects. Alert titles and button layout are not modelled.
- AuthForms.Login: if `signInWithPassword` throws, the source has no handler and `loading` stays on. The model only covers the two replies the code handles, where `loading` is always turned off.
- AuthForms.Register: the loading flag is not modelled. Every path after validation turns it off.
- The navigation after a successful registration happens when the user dismisses the alert. The model records it as the next route without modelling the dialogs.
- Text.Lower: only ASCII letters are folded. Other letters whose Unicode lower case is ASCII do not change the MIME choice: Kelvin sign gives `k`, which appears in none of the five extensions, and `İ` gives two characters.
- Strings are modelled as sequences of Unicode scalar values. Where the code uses `length`, the model counts UTF-16 code units (`Text.Utf16Length`). Lone surrogates cannot be represented. Every whitespace character is in the Basic Multilingual Plane.
- Error values are modelled as an optional message string. The file reader's rejection event, which has no `message`, is modelled by `Gemini.ImageRead`. The model does not cover other thrown values that are not `Error` objects, or whose `message` is not a string.
- `new Date(string)` parsing, invalid dates (NaN) and `toLocaleDateString('tr-TR', …)` are left out. Dates are integer milliseconds, and the calendar text is a function parameter.
- The spring animation (friction, tension, native driver) and the rotation interpolation strings are left out. The model covers only the animation target.
- Asynchrony is modelled only as an order of events. The state is whatever any interleaving of the initial fetch and the change notifications produces; subscription teardown and overlapping form submissions are not modelled.
- The credit debit, share-count reward and like-counter logic live in the create and gallery screens, which are not part of this model.
- The older copies of the authentication screens under `app/(auth)/` are not part of this model. They are separate screens with fewer checks.
