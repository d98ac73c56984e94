# The `/start` access gate of PremiumBot, in Dafny

This project models the access gate of a Telegram bot: commands/start.js.
Every `/start` command and every press of the "back" button runs
`handleStart`. The handler:

- loads the user registry (the `approved`, `banned` and `pending` lists);
- classifies the user as banned, admin, approved or restricted;
- answers with the matching screen;
- for a restricted user who is not yet pending, appends the user to
  `pending`, saves the registry and notifies the administrator.

The registry goes in and comes out as a value. Each call to the bot
transport, to `saveDB` and to `notifyAdmin` becomes one entry of an effect
trace, in the order the handler makes the calls.

Files:

- `Wrappers.dfy`: `Option`.
- `Ids.dfy`: stored ids, which may be numbers or strings. JavaScript's
  `String(...)` on integers is modelled as `Decimal`. The `.some(...)`
  membership test is `Listed`.
- `Escape.dfy`: the Markdown escape applied to the username at line 26,
  modelled exactly as the regular expression is written.
- `Start.dfy`: the gate. It has three parts:
  - `Respond`, the specification function: the outcome of one event;
  - `HandleStart`, the method that updates the loaded registry and the trace
    step by step, in the same order as the source;
  - the two entry points, plus lemmas about repeated events.

### The escape as written

The code escapes less than its intent of escaping every Markdown special
character, and the model follows the code. In `/[_*[\\]()~`>#+=|{}.!-]/g`,
`\\` is an escaped backslash inside the class, and the `]` after it closes the
class. The pattern is therefore the alternation of two branches:

- **Branch A:** one of `_ * [ \`, an empty group, the text `` ~`> ``, one or
  more `#`, then `=`.
- **Branch B:** the text `{}`, any character except a line terminator, then
  `!-]`.

The replacement `'\\$&'` puts one backslash in front of each match of the
global, left-to-right, non-overlapping scan.

The two branches start with different characters, and `#+` can only be left
on `=`. So the matcher is a deterministic automaton (`Escape.Run`).
`Escape.MatchAtSpec` proves that it accepts exactly the words of the pattern,
which `InPattern` states declaratively.

Because of this reading, ordinary usernames reach the Markdown message
unchanged, `_` and `*` included.

## Model

| member | source | states |
|---|---|---|
| Ids.Digits | commands/start.js:32-34 | the decimal numeral used by `String(n)` is non-empty, made of digits only, and has one digit exactly for numbers below ten |
| Ids.DigitsValue | commands/start.js:32-34 | the numeral of `n` denotes `n`, read most significant digit first, and has no leading zero |
| Ids.Decimal | commands/start.js:32-34 | `String(n)` of an integer is non-empty and starts with `-` exactly for negative numbers |
| Ids.DecimalValue | commands/start.js:32-34 | `String(n)` is an optional minus sign followed by digits only, without a leading zero, denoting the absolute value of `n` |
| Ids.DecimalExamples | commands/start.js:32-34 | `String` gives `"0"`, `"7"`, `"123"` and `"-7"` for 0, 7, 123 and -7 |
| Ids.DecimalInjective | commands/start.js:32-34 | comparing two integer ids by their string forms is the same as comparing them as numbers |
| Ids.CanonNames | commands/start.js:32-34 | the `String(id) === String(uid)` comparison of one entry holds exactly when the entry is the uid as a number or as its decimal string |
| Ids.ListedEitherForm | commands/start.js:32-34 | `Listed`, the `.some(String(id) === String(uid))` test, holds exactly when the list holds the uid as a number or as its decimal string |
| Ids.ListedAppend | commands/start.js:136 | after a push, the list recognises exactly the users it recognised before, plus those the new entry names |
| Escape.Run | commands/start.js:26 | an accepted run of the matcher is at least as long as the shortest word left from that state, and fits in the input |
| Escape.MatchAt | commands/start.js:26 | a match found at a position is at least six characters long, fits in the input, and starts with `_ * [ \` or `{` |
| Escape.MatchAtSpec | commands/start.js:26 | the matcher finds a match of length `n` exactly when the first `n` characters are a word of branch A or of branch B |
| Escape.PatternPrefixUnique | commands/start.js:26 | at one position at most one prefix is a word of the pattern, so the match found there is the only one |
| Escape.MatchPrefixStable | commands/start.js:26 | what follows a match does not change it |
| Escape.NextMatch | commands/start.js:26 | the scan's next match is the leftmost position from `from` on where a match starts; when there is none, no position after `from` starts a match |
| Escape.Matches | commands/start.js:26 | the positions the global scan escapes each start a match, and each lies at or after the end of the previous match; that no match is left out is `Escape.MatchesComplete` |
| Escape.MatchesComplete | commands/start.js:26 | the scan leaves no match out: every position from `from` on where a match starts lies inside one of the listed matches |
| Escape.CoveredMeans | commands/start.js:26 | lying inside a listed match (`Covered`) means there is a listed match whose span contains the position |
| Escape.Escape | commands/start.js:26 | the escaped string is never shorter than the input and at most one sixth longer, because each match is at least six characters long |
| Escape.Unescape | commands/start.js:26 | removing inserted backslashes never lengthens a string |
| Escape.EscapeLength | commands/start.js:26 | the output length equals the input length plus the number of matches the global scan finds |
| Escape.UnescapeEscape | commands/start.js:26 | deleting the inserted backslashes gives back the input, so no two usernames escape alike |
| Escape.EscapedHasNoLeadingMatch | commands/start.js:26 | an escaped string never starts with a match, so an inserted backslash is always recognisable |
| Escape.EscapeKeepsPlainText | commands/start.js:26 | any string containing neither `~` nor `{` is returned unchanged |
| Escape.EscapeKeepsUnderscores | commands/start.js:26 | `a_b*c` is returned as `a_b*c` |
| Escape.EscapeKeepsPlaceholder | commands/start.js:25-26 | the placeholder `NoUsername` is returned unchanged |
| Escape.EscapeBranchAExample | commands/start.js:26 | a word of branch A gets exactly one backslash in front |
| Escape.EscapeBranchBExample | commands/start.js:26 | a word of branch B inside a name gets exactly one backslash in front, and the rest is copied |
| Start.DisplayName | commands/start.js:25 | a present, non-empty username is used as it is; an absent or empty one becomes `NoUsername` |
| Start.AdminIsUnique | commands/start.js:27 | `IsAdmin`, the strict `uid === Number(ADMIN_UID)` test, holds for at most one uid, and for none when the configured id is not a number |
| Start.Classify | commands/start.js:27-42 | the tier is Banned iff the user is in `banned`; Admin iff not banned and the id equals the configured admin id; Approved iff neither of those but in `approved`; Restricted otherwise |
| Start.KeyboardRows | commands/start.js:71-92 | the admin keyboard has three rows, with `users` alone in the first; the member keyboard has only the `gen`/`tempmail` and `2fa`/`uptime` rows |
| Start.ShowScreen | commands/start.js:94-107 | the privileged screen is two calls, answering the callback and then editing the message in place with the text and keyboard in Markdown, exactly when `EditsInPlace` holds (both ids present and truthy); otherwise it is one fresh Markdown message with the keyboard. Every call goes to the transport |
| Start.FalsyIdsSendAfresh | commands/start.js:94 | a missing or empty callback id, or a missing or zero message id, fails the truthiness test, and the screen is sent afresh |
| Start.RestrictedReply | commands/start.js:111-133 | the restricted notice is a Markdown message with no keyboard, sent to the chat, naming the uid, the administrator's handle, the username with its `NoUsername` fallback, and that username escaped |
| Start.NoticeNamesUser | commands/start.js:113-123 | removing the inserted backslashes from the escaped name in the notice gives back the raw username |
| Start.Only | commands/start.js:29-139 | a trace filter with no counterpart in the source, used to count the handler's calls by kind: it keeps only calls of the given kind, each taken from the trace |
| Start.OnlyAppend | commands/start.js:29-139 | the trace filter distributes over concatenated traces |
| Start.Respond | commands/start.js:23-139 | `approved` and `banned` never change. `pending` changes only for a restricted user who was not pending, by a single append of the uid at its end. `saveDB` (with the new registry) and `notifyAdmin(uid, username, false)` happen exactly when the registry changes. A banned user, even the admin, gets the denial alone. Admin and approved users get their screen and keyboard, by answer-then-edit iff both callback ids are given and by one send otherwise. A restricted user gets the notice first, as the only transport call; if not yet pending, it is followed by the save and then the notification, in that order |
| Start.Privileged | commands/start.js:42-107 | the privileged branch leaves the registry unchanged and neither saves nor notifies |
| Start.RestrictedOutcome | commands/start.js:110-139 | the uid is appended to `pending` iff it was not pending at load time. The trace is the notice alone for a pending user; otherwise it is the notice, then `saveDB` with the new registry, then `notifyAdmin(uid, username, false)` |
| Start.RestrictedTransport | commands/start.js:133 | the restricted branch calls the transport exactly once, with the notice |
| Start.RestrictedSave | commands/start.js:135-137 | the restricted branch calls `saveDB` once, with the new registry, iff the user was not pending, and never otherwise |
| Start.RestrictedNotify | commands/start.js:135-138 | the restricted branch calls `notifyAdmin` once iff the user was not pending, and never otherwise |
| Start.HandleStart | commands/start.js:23-139 | the step-by-step handler (three membership tests, ban check, privileged branch, then the restricted branch with its push, save and notify) leaves the registry and trace that `Respond` specifies |
| Start.OnStartCommand | commands/start.js:7-9 | `/start` runs the gate with no callback and no message id, so the reply is never an edit; a message without `from` throws before anything is loaded or sent |
| Start.OnCallbackQuery | commands/start.js:12-20 | a callback without a message throws at line 14; otherwise the gate runs, with the query id and message id, iff the data is `back`; any other data changes nothing and makes no call |
| Start.RepeatWhilePending | commands/start.js:133-135 | once a restricted user is pending, every later start leaves the registry alone and only repeats the notice |
| Start.RepeatedRestrictedStart | commands/start.js:133-139 | over `k` starts of a restricted user, with the registry threaded through, only the first can change the registry; each later start only repeats the notice |
| Start.RepeatedStartSavesOnce | commands/start.js:135-137 | over `k` starts of a restricted user, the registry is saved once (with the uid appended) if the user was not pending, and never otherwise |
| Start.RepeatedStartNotifiesOnce | commands/start.js:135-138 | over `k` starts of a restricted user, the administrator is notified once if the user was not pending, and never otherwise |
| Start.RepeatedStartNotices | commands/start.js:133 | each of the `k` starts sends the same restricted notice, and nothing else goes to the transport |
| Start.OnlyThenCopies | commands/start.js:133 | appending repeated notices adds to the transport calls only |
| Start.WelcomeKeepsUnderscores | commands/start.js:26-57 | an approved user named `a_b*c` is welcomed as `a_b*c` |

## Left out

- Telegram transport: `sendMessage`, `answerCallbackQuery` and `editMessageText` are trace entries only. Their results, their failures and the rejected promises that would end the handler early are not modelled.
- `onText` routing: the `/\/start/` pattern matches `/start` anywhere in a message, and which messages reach the handler is not modelled. `OnStartCommand` takes any message that did reach it.
- The registry store: `loadDB` is the registry passed in and `saveDB` is a trace entry recording the registry value it was given. utils/db is not part of this model, and neither are file errors or the read-modify-write race between concurrent events.
- `notifyAdmin`: recorded as a call in the trace. It is not awaited, and its internals (utils/notifyAdmin) are not part of this model.
- Configuration: `Number(ADMIN_UID)` is an `Option<int>` parameter, `None` standing for NaN. How JavaScript parses the configured string (whitespace, hexadecimal, exponents) is not modelled. `ADMIN_USERNAME` is a string parameter.
- Message wording: the emoji bodies are the constructors of `Text`, which carry only the values interpolated into them (escaped username, uid, raw username, admin handle). Markdown rendering, and the fact that the escape does not make the name Markdown-safe, are outside the model.
- Ids: a user id and a numeric stored id are integers; `String` of non-integral or very large numbers (exponent notation) is not modelled.
- Escape.Escape: the model works on Unicode scalar values, whereas JavaScript's `.` matches one UTF-16 code unit. So a name holding `{}`, then a character outside the Basic Multilingual Plane, then `!-]` is escaped by the model but not by the source.
- Escape: the two-branch pattern is hand-coded as an automaton; no general regular-expression engine is modelled.
- Status: a thrown TypeError is only reported as `Threw`; how the bot library reports it is not modelled.
