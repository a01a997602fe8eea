# ROME backend: chat responder, capacity statistics, sign-up and contact intake

A Dafny model of the domain logic of the ROME API service (`main.py`), a small
FastAPI backend over a document store. Four operations are modelled:

- **Chat responder** (`POST /api/chat`, module `Chat`): the message is stripped
  of surrounding whitespace; an empty result gets the fixed nudge
  "Say something and I’ll respond!"; otherwise the lower-cased message is
  checked against three keyword groups in order — privacy
  (`privacy`, `data`, `secure`, `safety`), greeting (`hello`, `hi`, `hey`),
  games (`game`, `play`, `minigame`) — and the first group with a keyword
  occurring anywhere in the message (as a substring) picks the reply. With no
  match, the stripped message is quoted back in its original case inside the
  template "You said: ‘…’. I’m here to help you explore ROME.". The handler's
  if/elif chain is `Chat.Choose`; the same responder written as an ordered rule
  table with first-match evaluation is `Chat.TableChoose`, and
  `Chat.ChainIsFirstMatch` proves the two agree. The three Python string
  builtins it relies on (`str.strip`, `str.lower`, substring `in`) are modelled
  in module `Text`.
- **Capacity statistics** (`GET /api/stats`, module `Stats` and
  `Store.Database.GetStats`): `spots_left = max(10000 - total, 0)`, with the
  total taken as 0 when no store is configured.
- **Early-access sign-up** (`POST /api/early-access`,
  `Store.Database.SignupEarlyAccess`): look for a record with exactly the same
  email; if there is one, answer "Already signed up" with the email and write
  nothing; otherwise append one record (email, source, ref) under a fresh
  identifier and return it.
- **Contact intake** (`POST /api/contact`, `Store.Database.SubmitContact`):
  append the payload as a new record under a fresh identifier, every time.

The document store is the class `Store.Database`: two append-only sequences
(`earlyaccess`, `contact`), a counter that hands out identifiers, and a flag
`configured` standing for the module-wide store handle being present. Its
invariant `Valid()` says every identifier in use is below the counter and no two
records share one, which is what makes each returned identifier fresh. The store
helper `create_document` is the pair of methods `CreateEarlyAccess` and
`CreateContact`; `database.py` and `schemas.py` are not part of this model, so
their behaviour is assumed here: an insert appends and returns a new
identifier, and fails when no store is configured.

Files: `wrappers.dfy` (Option, Result), `text.dfy`, `chat.dfy`, `stats.dfy`,
`store.dfy`.

## Model

| member | source | states |
|---|---|---|
| `Text.IsSpace` | main.py:73 | the characters `strip()` removes: tab, line feed, vertical tab, form feed, carriage return, 0x1C-0x1F and space (its properties are those of `TrimStart`, `TrimEnd` and `StripIsSlice`) |
| `Text.TrimStart` | main.py:73 | the result is a suffix of the input, everything dropped is whitespace, and it does not start with whitespace |
| `Text.TrimEnd` | main.py:73 | the result is a prefix of the input, everything dropped is whitespace, and it does not end with whitespace |
| `Text.Strip` | main.py:73 | `message.strip()`; what it returns is stated by `StripIsSlice` and `StripOf` below |
| `Text.StripIsSlice` | main.py:73 | `strip()` returns the slice of the message between the leading and trailing whitespace, itself without whitespace at either end |
| `Text.StripOf` | main.py:73 | conversely, text without whitespace at its ends, surrounded only by whitespace, is exactly what `strip()` returns |
| `Text.StripEmptyIff` | main.py:73-74 | the stripped message is empty exactly when the message is empty or all whitespace |
| `Text.StripIdempotent` | main.py:73 | stripping an already stripped message changes nothing |
| `Text.LowerChar` | main.py:77 | an ASCII capital maps to the small letter at the same alphabet position; every other character is kept |
| `Text.Lower` | main.py:77 | `user_msg.lower()`; what it returns is stated by `LowerIsLower` and `LowerFixedIff` below |
| `Text.LowerIsLower` | main.py:77 | the lowered message has no capital ASCII letter, and lowering twice is lowering once |
| `Text.LowerFixedIff` | main.py:77 | lowering leaves a message unchanged exactly when it has no capital ASCII letter |
| `Text.StartsWithIff` | main.py:78 | the character-by-character prefix test is the sequence prefix relation |
| `Text.Contains` | main.py:78 | `k in s`; what it means is stated by `ContainsIff` below |
| `Text.ContainsIff` | main.py:78 | `k in s` holds exactly when `k` occurs in `s` at some position (a substring test, not a word test) |
| `Text.OccursShift` | main.py:78 | an occurrence in the tail of a string is an occurrence one position further in the string |
| `Text.SliceContained` | main.py:78 | every slice of a string is contained in it |
| `Text.AbsentCharNotContained` | main.py:78 | a keyword with a character the message lacks does not occur in it |
| `Text.AnyIn` | main.py:78 | `any(k in lower for k in group)` holds exactly when some keyword of the group occurs in the message |
| `Chat.AvatarChat` | main.py:71-91 | the whole handler: reply text of the choice made on the stripped message; its behaviour is stated by `EmptyIff`, `PrivacyIff`, `GreetingIff`, `GameIff`, `FallbackIff`, `ReplyIsOneOf`, `StripInvariant` and `CaseInsensitive` below |
| `Chat.Choose` | main.py:74-88 | the if/elif chain on the stripped message; stated by `ChooseIff` and `ChainIsFirstMatch` below |
| `Chat.ReplyText` | main.py:75-88 | the literal reply texts; stated by `ReplyTextInjective` and `FirstChar` below |
| `Chat.FallbackReply` | main.py:88 | the fallback template; stated by `FallbackEchoes` below |
| `Chat.TableChoose` | main.py:74-88 | the same responder as an ordered rule table with first-match evaluation; stated by `ChainIsFirstMatch` below |
| `Chat.FirstMatch` | main.py:78-88 | the index found is of a rule that matches with no earlier rule matching; no index means no rule matches |
| `Chat.ChainIsFirstMatch` | main.py:78-88 | the if/elif chain picks the same reply as first-match evaluation of the ordered rule table |
| `Chat.ChooseIff` | main.py:73-88 | branch by branch and in both directions: nudge iff empty, each rule iff it matches and no earlier rule does, echo iff nothing matches |
| `Chat.ReplyTextInjective` | main.py:75-88 | the five reply texts are pairwise different and the fallback text determines the quoted message |
| `Chat.FirstChar` | main.py:75-88 | each reply text starts with its own letter (S, I, H, L, Y) |
| `Chat.TextTellsChoice` | main.py:73-89 | the reply text returned is a given reply's text exactly when the chain chose that reply |
| `Chat.EmptyIff` | main.py:73-75 | the nudge is returned exactly for an empty or all-whitespace message |
| `Chat.PrivacyIff` | main.py:77-82 | the privacy reply is returned exactly when the stripped message is non-empty and contains a privacy keyword, whatever else it contains |
| `Chat.GreetingIff` | main.py:77-84 | the greeting reply is returned exactly when a greeting keyword occurs and no privacy keyword does |
| `Chat.GameIff` | main.py:77-86 | the games reply is returned exactly when a game keyword occurs and neither a privacy nor a greeting keyword does |
| `Chat.FallbackIff` | main.py:77-88 | the fallback quoting the stripped message is returned exactly when the message is non-empty and no keyword of any group occurs |
| `Chat.ReplyIsOneOf` | main.py:73-89 | every reply is the nudge, one of the three rule replies, or the fallback quoting the stripped message |
| `Chat.FallbackEchoes` | main.py:88 | the fallback contains the stripped message verbatim, and two fallbacks are equal only for equal messages |
| `Chat.StripInvariant` | main.py:73 | surrounding whitespace does not change the reply |
| `Chat.CaseInsensitive` | main.py:77-88 | messages equal after stripping and lower-casing get the same reply, except that each fallback quotes its own original-case text |
| `Chat.ChooseCaseInsensitive` | main.py:77-88 | the same, for an already stripped message and the reply chosen |
| `Chat.PrivacyBeforeGreeting` | main.py:78-84 | "hi there, is my data secure?" gets the privacy reply although "hi" also occurs |
| `Chat.ChoosePrivacyBeforeGreeting` | main.py:78-82 | the chain picks the privacy reply for that message |
| `Chat.UpperCaseGreeting` | main.py:77-84 | "HELLO" gets the greeting reply |
| `Chat.ChooseUpperCaseGreeting` | main.py:77-84 | the chain picks the greeting reply for "HELLO" |
| `Chat.HelloLowered` | main.py:77 | "HELLO" lowers to "hello" |
| `Chat.SubstringGreeting` | main.py:73-84 | "  this  " gets the greeting reply, because "hi" occurs inside "this" |
| `Chat.ChooseSubstringGreeting` | main.py:83-84 | the chain picks the greeting reply for "this" |
| `Chat.FallbackExample` | main.py:88 | "what is ROME" gets the fallback, which contains "what is ROME" verbatim |
| `Chat.ChooseFallbackExample` | main.py:77-88 | the chain picks the fallback for "what is ROME" |
| `Chat.NoPrivacyInExample` | main.py:78 | no privacy keyword occurs in "what is rome" |
| `Chat.NoGreetingInExample` | main.py:83 | no greeting keyword occurs in "what is rome" |
| `Chat.NoGameInExample` | main.py:85 | no game keyword occurs in "what is rome" |
| `Chat.NoHiInExample` | main.py:83 | "hi" does not occur in "what is rome" |
| `Chat.EmptyExamples` | main.py:73-75 | the empty message and a whitespace-only message get the nudge |
| `Stats.StatsFor` | main.py:45-47 | cap is 10000, the total is echoed, the places left are cap minus total up to the cap and 0 from the cap on, never above the cap |
| `Stats.SpotsLeftAntitone` | main.py:46 | more sign-ups never leave more places |
| `Stats.OneMoreSignup` | main.py:46 | one more sign-up takes exactly one place, unless none was left |
| `Stats.StatsExamples` | main.py:44-47 | totals 0, 10000 and 10005 give 10000, 0 and 0 places left |
| `Store.Database.GetStats` | main.py:42-47 | the total is the number of early-access records, or 0 with no store, in which case all 10000 places are left |
| `Store.AppendNewEmailKeepsUnique` | main.py:31-37 | appending a record whose email is not yet present keeps emails unique |
| `Store.Database.constructor` | main.py:6 | a store starts with both collections empty |
| `Store.Database.NextIdFresh` | main.py:36 | the next identifier is used by no stored record |
| `Store.Database.CreateEarlyAccess` | main.py:35-36 | with a store: exactly one record (email, source, ref) is appended under an identifier no record had; without: it fails and nothing changes; contacts are untouched |
| `Store.Database.CreateContact` | main.py:61-62 | with a store: exactly one record built from the payload is appended under a fresh identifier; without: it fails and nothing changes; early-access records are untouched |
| `Store.Database.SignupEarlyAccess` | main.py:29-37 | an exactly equal email already stored gives "Already signed up" with the email and no change; otherwise exactly one record is appended and its fresh identifier returned; without a store it fails with no change; contacts never change; unique emails stay unique |
| `Store.Database.SubmitContact` | main.py:59-63 | every submission appends exactly one record from the payload under a fresh identifier, with no duplicate check; early-access records never change |
| `Store.SignupTwice` | main.py:31-37 | signing up twice with a new email creates one record then answers "Already signed up": exactly the record (fresh identifier, email, source, ref) is appended, contacts are untouched, and the reported total grows by one |
| `Store.ContactTwice` | main.py:61-63 | two identical contact submissions append exactly two records, both built from the payload, under two different identifiers; early-access records are untouched |

## Left out

- The FastAPI application, CORS middleware, routing, `GET /` (main.py:19-21) and the uvicorn start-up: framework plumbing with no domain logic.
- The `/test` diagnostics endpoint (main.py:93-119): it reads environment variables, calls the store driver and formats caught exceptions; none of that is visible here.
- Email validation by pydantic's `EmailStr`: a foreign library; emails reach the model as already-validated strings. The duplicate check compares the validated value exactly, and that value may already be normalised by the validator (for example in the case of its domain part), so two raw inputs can compare equal in the service although they differ as typed.
- `database.py` and `schemas.py` are not part of this model. The store is a pair of sequences with a counter for identifiers; the identifiers the real store returns are not visible here and are modelled as natural numbers, and the `createdAt` timestamps the store helper adds are not modelled.
- Store failures other than "no store configured" (a driver or network error during the lookup, the count or the insert) and the wrapping of every exception into an HTTP 500 response with the exception text: the model's only error is `StoreUnavailable`, returned as a `Result` instead of raised.
- The store-presence test `if db` (main.py:31, main.py:44) is read as "a store handle is configured", the flag `configured`. The diagnostics endpoint compares with `is not None` (main.py:104); a driver whose database object refuses truth-value testing (PyMongo 4 raises `NotImplementedError` for `bool(db)`) would make both handlers fail with HTTP 500 instead, which the model does not capture.
- Concurrency: the sign-up's lookup and insert are not atomic in the service, so two simultaneous sign-ups with the same email can both insert. The model runs one call at a time, and `EmailsUnique` is preserved only under that assumption.
- Text.Lower: models ASCII case folding only; Python's `str.lower` also lowers non-ASCII letters (and can change the length for a few of them). This can change which reply fires: "H\u0130" (capital I with dot above) lowers in Python to "hi" followed by a combining dot, which contains "hi" and gets the greeting, while the model keeps U+0130 and echoes the message; likewise the Kelvin sign U+212A lowers to "k".
- Text.IsSpace: models the ASCII whitespace of Python's `str.isspace` (tab, line feed, vertical tab, form feed, carriage return, 0x1C-0x1F, space); `str.strip` also removes Unicode whitespace such as no-break space.
