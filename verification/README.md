# People-lookup decision logic in Dafny

This project models the decision logic inside a small people-lookup
application. The application has four parts: a SQL Server database (the
people table and the bot's control table), a Flask web endpoint over it,
a Telegram bot, and the browser page that shows the results. The code of each part is described here only where it
decides something. The model covers:

- **Gender inference** (`GenderPredictor`). `infer_gender` trims and
  lower-cases a name, takes its first whitespace-delimited word, and
  classifies it by that word's last letter.
- **Search filter** (`Database`). `search_in_db` turns the criteria into
  a list of SQL conditions and a parallel list of bound parameters. It
  uses the fixed criterion-to-column table `valid_columns`. The model
  holds both the code as written and the corrected builder (see
  Findings). The web endpoint takes the choice as a parameter
  (`Database.AgeHandling`), so its properties are stated for both.
- **Authorised users** (`AuthorizedUsers`). The bot's control table is a
  map from chat id to the admin who added it. The model covers
  insertion with duplicate detection, and deletion that reports whether a
  row went.
- **Web endpoint** (`WebApp`):
  - `POST /search` sanitises its parameters and follows a 400/500
    decision tree.
  - Each result row is shaped. A `Sexo` of `F` or `M` becomes a label;
    any other value is inferred from the name. An image link is added for
    the first existing file among `jpg`, `jpeg`, `png`.
  - `GET /dui-images/<filename>` serves a file only when the name is
    already safe.
- **Bot helpers** (`Bot`):
  - The MarkdownV2 escaper for user data.
  - The `restricted` gate around every command. It runs the command for
    authorised users and reports lookup errors. For anyone else it
    forwards an access request, with approve and deny callbacks, to the
    administrator.
  - A conservative model of what Telegram's MarkdownV2 parser refuses.
    It refuses a bare `#+-={}.!` outside code spans, following the
    "MarkdownV2 style" rules of the Telegram Bot API.
- **Browser client state** (`Client`):
  - JavaScript `slice` paging, ten results per page.
  - The starting-letter filter.
  - The state resets in `clearUI`, `renderFilteredResults`,
    `handleSearchResults` and the submit handler.

Supporting modules:
- `Wrappers` holds `Option` and `Result`.
- `Text` models the Python string primitives the code relies on. It
  covers `str.isspace` (all Unicode white space), `strip`, `split()[0]`,
  `lower`/`upper` (ASCII and the Latin-1 letters with a Latin-1 counterpart), `startswith`/`endswith`, `str(int)`
  and `int(str)`.
- `Python` holds scalar values, truthiness, `str()`, `int()` and
  `dict.get`.

The outside world is turned into parameters:
- the database becomes a `Store` function from a query to rows or an error;
- `os.path.exists` becomes `fileExists`;
- `secure_filename` becomes `secureFilename`;
- the image directory becomes `Config`;
- the bot's authorised-set lookup becomes a `Lookup`;
- the outcome of the wrapped command, and whether the network delivers a
  message, are inputs to the gate;
- the administrator's chat id is the `adminId` parameter.

Two behaviours of the code are worth noting:

- **Empty search body.** `POST /search` with `{}` answers 400, because an
  empty dict is falsy at `app.py:50`. See `WebApp.SearchEndpoint`.
- **"Carlos Ruiz".** The name is classified `desconocido`, because
  "carlos" ends in `s`. See `GenderPredictor.ExampleCarlosRuiz`.

## Model

| member | source | states |
|---|---|---|
| GenderPredictor.InferGender | gender_predictor.py:18-46 | A non-string input, and an empty or whitespace-only string, give `desconocido` |
| GenderPredictor.InferFromFirstWord | gender_predictor.py:34-46 | For any name made of leading whitespace, a first word `w` and a rest starting with whitespace, the result is `femenino` if `w` ends in `a` after lower-casing, `masculino` if it ends in `o`, `desconocido` otherwise |
| GenderPredictor.SplitFirstWord | gender_predictor.py:34-38 | Every non-blank name has such a decomposition, so the characterisation above covers all inputs |
| GenderPredictor.InferIgnoresLaterWords | gender_predictor.py:38 | `infer(tok + " " + rest) == infer(tok)` for every word `tok` |
| GenderPredictor.InferIgnoresPadding | gender_predictor.py:34 | Leading and trailing whitespace never change the result |
| GenderPredictor.InferIgnoresCase | gender_predictor.py:34 | Lower-casing or upper-casing the whole name never changes the result |
| GenderPredictor.ExampleMariaLopez | gender_predictor.py:41-42 | "Maria Lopez" is `femenino` |
| GenderPredictor.ExamplePedroRuiz | gender_predictor.py:43-44 | "Pedro Ruiz" is `masculino` |
| GenderPredictor.ExampleCarlosRuiz | gender_predictor.py:41-46 | "Carlos Ruiz" is `desconocido`: the first word ends in `s` |
| GenderPredictor.ExampleAlexTran | gender_predictor.py:41-46 | "Alex Tran" is `desconocido` |
| Database.BuildFilterAsWritten | database.py:73-88 | As written, the conditions are exactly those of the accepted keys (recognised, truthy value) in input order. Conditions outnumber parameters by exactly the number of accepted ages that `int()` rejects. The parameters are those of the corrected builder: only the conditions differ |
| Database.ParamsAgree | database.py:77-82 | Parsing the age before or after appending its condition yields the same parameter list |
| Database.PlaceholderCount | database.py:77-82 | The placeholder/parameter surplus equals the number of unparseable accepted ages when the age is appended before parsing, and is zero when it is parsed first |
| Database.AsWrittenConditions | database.py:74-88 | As written, the condition list depends only on the sequence of accepted keys, not on the values |
| Database.BuildFilter | database.py:73-88 | The corrected builder gives one condition and one parameter per usable criterion, in input order. The parameter is the integer age, the upper-cased sex, or the lower-cased `%value%` pattern. Each condition is paired with a parameter of the kind its placeholder expects |
| Database.IntendedFilterSpec | database.py:74-88 | The same, proved by induction over the criteria |
| Database.SearchAsWritten | database.py:90-126 | No accepted key: `[]`, and no query runs. A surplus placeholder: the statement fails. With every age parseable, it agrees with the corrected search |
| Database.Search | database.py:90-126 | No usable criterion: `[]`, and no query is executed. Otherwise exactly one query runs over the people table, ordered by name |
| Database.AsWrittenAgreesWithoutBadAges | database.py:77-82 | When every accepted age parses, the as-written and corrected builders coincide |
| Database.CollectAppend | database.py:74-88 | The loop's output for two runs of criteria is the concatenation of their outputs, so conditions keep the input order |
| Database.IgnoredCriterion | database.py:74-75 | A criterion with an unrecognised key or a falsy value contributes nothing, wherever it sits |
| Database.SearchIgnoresCriterion | database.py:74-75 | Such a criterion leaves the corrected search's result unchanged |
| Database.NamesShareColumn | database.py:66 | `nombres` and `apellidos` build the same filter |
| Database.NonNumericAgeBreaksSearch | database.py:77-82 | For `edad="abc", nombres="ana"`, the as-written builder yields two conditions but one parameter, and the search fails. The corrected builder drops the age and queries by name |
| Database.NonNumericAgeDropped | database.py:77-82 | As intended, that search is the search for the name alone |
| AuthorizedUsers.Authorized | database.py:153-158 | The authorised set holds exactly the chat ids of the table's rows, one per row |
| AuthorizedUsers.Add | database.py:160-169 | Answers true exactly when the id was absent. Afterwards the id is authorised and every existing row is kept. A duplicate leaves the table unchanged |
| AuthorizedUsers.Remove | database.py:171-177 | Answers whether the id was present. Afterwards the set is the old set minus the id, and the other rows are unchanged |
| AuthorizedUsers.AddTwice | database.py:160-169 | Adding the same new id twice answers true, then false |
| AuthorizedUsers.AddThenRemove | database.py:160-177 | Removing a freshly added id restores the table |
| AuthorizedUsers.RemoveThenAdd | database.py:160-177 | Re-adding a removed id with its admin restores the table's ids and their `AddedBy` admins |
| WebApp.SearchParamsSpec | app.py:55 | About `SearchParams`: every criterion comes from a non-empty string member and carries its stripped text. Every non-empty string member yields one |
| WebApp.SearchParamsAppend | app.py:55 | Criteria are collected member by member, in order |
| WebApp.BlankMemberIgnored | app.py:55 | A non-string member, or a whitespace-only string, does not change the search's response, as written and as intended |
| WebApp.NoRecognisedKeyNoQuery | app.py:55-58 | With no recognised key no query is executed, and the answer is 200 with an empty list, as written and as intended |
| WebApp.ProbeImage | app.py:69-73 | Returns nothing exactly when no extension's file exists. Otherwise it returns `base.ext` for an existing file whose earlier extensions all do not exist |
| WebApp.ShapeRow | app.py:66-81 | Fails exactly when images are configured and `Dui` is truthy but not text. Otherwise every field except `Sexo` and `imagen_url` is unchanged, and `Sexo` becomes `SexLabel`: `Femenino`/`Masculino` for `F`/`M` and the inferred label for anything else. When images are configured, `Dui` is truthy text and some `strip(Dui).ext` exists, `imagen_url` links the first such file |
| WebApp.ShapeRows | app.py:65-81 | All rows shaped in order, or a failure if any row fails |
| WebApp.ImageLinkNamesExistingFile | app.py:67-73 | The converse of the link clause of `ShapeRow`: a new image link exists only with a configured directory and a text `Dui`. It names `strip(Dui).ext` for an existing file, and no earlier extension exists |
| WebApp.NoDirectoryNoImage | app.py:67 | Without an image directory no link is added and shaping cannot fail |
| WebApp.AdvertisedImageIsServed | app.py:37-42 | An advertised image is served by the image route whenever its name is already safe |
| WebApp.SearchObject | app.py:57-87 | Only 200 or 500, with the search as written or as intended. A 500 always carries the fixed generic message, never the store's error detail |
| WebApp.SearchEndpoint | app.py:45-87 | 400 exactly for an unparseable or falsy body (including `{}`), with the matching message. A truthy non-object body raises outside the handler. A non-empty object is searched |
| WebApp.NonNumericAgeEndpoint | app.py:57-87 | For `{"edad": "abc", "nombres": "ana"}` the endpoint as written answers the generic 500. As intended it answers exactly as for `{"nombres": "ana"}` |
| WebApp.ServeImage | app.py:31-42 | 500 without an image directory. 400 unless the sanitised name is non-empty and equal to the requested one. Otherwise the file is served from the image directory |
| Bot.EscapeChars | bot.py:40-41 | Output length is input length plus the number of special characters |
| Bot.EscapeMarkdown | bot.py:37-41 | A non-string gives `''`. Text grows by exactly one character per special character |
| Bot.EscapeAppend | bot.py:41 | Escaping distributes over concatenation, so the escaper works character by character |
| Bot.EscapeOne | bot.py:40-41 | One backslash precedes a special character; other characters are copied |
| Bot.EscapeKeepsPlainText | bot.py:41 | Text without special characters is returned unchanged |
| Bot.UnescapeEscape | bot.py:41 | Removing the inserted backslashes recovers the input |
| Bot.EscapeMarkdownInjective | bot.py:37-41 | Different texts escape differently |
| Bot.BackslashDefeatsEscape | bot.py:40-41 | The escape set lacks the backslash, so the name `\.` escapes to `\\.`, whose `.` stays bare and is refused |
| Bot.FullyEscapedIsAccepted | bot.py:40-41 | With the backslash added to the set, escaped text of any content passes the MarkdownV2 check |
| Bot.CallbackCarriesId | bot.py:67-70 | The approve and deny callbacks start with their prefixes, and what follows parses back to the user id |
| Bot.AsWrittenRequestRefused | bot.py:59-65 | The request text as written (`AccessRequestAsWritten`) is refused for every user: a bare `-` follows the header |
| Bot.RequestAccepted | bot.py:62-65 | With the bullets escaped and the user data fully escaped, the request passes the MarkdownV2 check for every user |
| Bot.Gate | bot.py:43-80 | The command runs exactly when the lookup succeeds and the id is in the set; then the administrator gets nothing, and the user gets no reply, or the verification-error reply when the command raises. A failed lookup yields that reply and nothing else. Otherwise the administrator receives the request with the approve/deny buttons exactly when the send succeeds, and the user gets the forwarded reply, or the contact-the-administrator reply |
| Bot.RestrictedAsWritten | bot.py:43-80 | The decorator as written never sends the administrator anything, and behaves as the corrected one for authorised users and failed lookups |
| Bot.Restricted | bot.py:43-80 | The corrected decorator runs the command exactly for authorised users; an unknown user's request, with the approve/deny buttons, reaches the administrator exactly when the network delivers it |
| Bot.AsWrittenNeverForwards | bot.py:56-79 | As written, no request ever reaches the administrator, and every unknown user is told to contact them |
| Bot.RequestForwardedIffSent | bot.py:56-79 | Corrected, an unknown user's request reaches the administrator's chat exactly when the network delivers it, and the command never runs |
| Client.PageItems | main.js:92-96 | A page holds at most ten items. For page `p >= 1` it is exactly `results[(p-1)*10 .. min((p-1)*10+10, n)]` |
| Client.PagesCoverResults | main.js:92-96 | Pages `1..k` together are the first `min(10k, n)` results, in order, with no gaps or repeats |
| Client.EveryResultOnSomePage | main.js:92-96 | Every result appears on page `i/10 + 1` |
| Client.FilterMembership | main.js:196-199 | The letter filter keeps exactly the items whose upper-cased name starts with the letter |
| Client.FilterAppend | main.js:196-199 | The filter preserves order: it distributes over concatenation |
| Client.FilterIdempotent | main.js:196-199 | Filtering twice by the same letter equals filtering once |
| Client.Displayed | main.js:195-199 | With no active letter the displayed list is the stored results. Otherwise it holds exactly the matching stored items |
| Client.RenderPage | main.js:85-96 | An empty list shows the no-match message. Otherwise the cards are the current page's `PageItems`: at most ten, all drawn from the list |
| Client.RenderFilteredResults | main.js:194-205 | Resets the page to 1 and shows page 1 of the displayed list, or the no-match message |
| Client.ClearUI | main.js:181-192 | Always page 1. The full reset empties the results and the letter; the partial one keeps both |
| Client.HandleSearchResults | main.js:57-74 | Empty data leaves the state untouched. Otherwise the data replace the results, the letter is cleared and the page is 1 |
| Client.Submit | main.js:27-54 | The page is always reset. A failed request shows the error text and keeps the stored results |

## Left out

- Connections, configuration and process control: `get_db_connection`,
  environment parsing, the `BOT_ADMIN_ID` check with `exit()`, and `main()`.
  These are I/O. The admin id is the `adminId` parameter.
- SQL evaluation. `DATEDIFF`, `LIKE` collation and the `ORDER BY` result
  order are server behaviour. Queries are data; the `Store` returns rows.
- `initialize_database` (DDL) and `log_search` (a single INSERT). Neither
  decides anything. The empty table is `AuthorizedUsers.Empty`.
- Database errors other than the duplicate key in `add_authorized_user`.
  A connection failure, or a chat id outside the BIGINT range, raises out
  of these functions and is not modelled.
- Flask routing, `url_for` percent-encoding (`ImageUrl` concatenates the
  name unencoded), `send_from_directory`, werkzeug's `secure_filename`
  (the `secureFilename` parameter) and `os.path.exists` (the `fileExists`
  parameter).
- The Telegram API, async/await and the rate limiter. The full MarkdownV2
  grammar is also left out: `MarkdownV2Accepts` checks only the
  reserved-character rule, not entity nesting or closing.
- Bot.Gate: a failure of the reply to the user after a successful send is
  not modelled. In the code it would turn the forwarded reply into the
  contact-the-administrator reply.
- The browser DOM, `fetch`, HTML templating, and the salary's
  `parseFloat(...).toFixed(2)` (floating point). `renderPagination`,
  `createAlphabetFilter` and `updateAlphabetButtons` are left out because
  their bodies are not part of the code base.
- Client.StartsWithLetter: a truthy `NombreCompleto` that is not a string
  makes `toUpperCase` throw in the browser. The model treats it as not
  matching.
- Logging everywhere.
- Database.Search: `search_in_db` opens its connection (database.py:62)
  before the early return for no criteria. With the database down, even a
  search with no usable criterion fails, and the endpoint answers 500.
  The model has no connection step, so it answers `[]` there.
- AuthorizedUsers.RemoveThenAdd: the `AddedDate` column (database.py:140)
  is not modelled. A re-added row gets a new date, so the table is
  restored only in its ids and `AddedBy` admins.
- WebApp.ServeImage: a 200 stands for whatever `send_from_directory`
  answers, including its 404 when the safe name has no file.
- Text.Lower and Text.Upper: cover ASCII and the Latin-1 letters whose
  other case is also Latin-1. `Upper` leaves `ÿ` (whose upper case is
  U+0178), `µ` (U+039C) and `ß` (`SS`) unchanged. Python and JavaScript
  case mapping covers all of Unicode, including such expansions.
- Text.ParseInt: accepts optional whitespace, one sign and ASCII digits.
  Python's `int()` also accepts underscores between digits and non-ASCII
  decimal digits.
- Non-scalar criteria values, JSON numbers with a fraction or exponent,
  and JSON `true` passed as a criterion. These are not strings, so
  `app.py:55` drops them before they can matter.

## Findings

| source | as written | input that shows it | evidently intended | confidence | as-written member | corrected member |
|---|---|---|---|---|---|---|
| database.py:77-82 | The age condition is appended (line 79) before `int(value)` can fail (line 80), so the parameters fall one short and the statement fails; the web endpoint answers 500 (`WebApp.NonNumericAgeEndpoint`) | criteria `edad="abc"`, `nombres="ana"` | A non-numeric age is ignored, as the warning at line 82 says: no condition and no parameter | not executed; high | Database.SearchAsWritten | Database.Search |
| bot.py:62-65 | The bullet lines `*- Nombre:*`, `*- Username:*` and `*- ID:*` leave `-` unescaped, so MarkdownV2 parsing refuses every access request; the user is always told to contact the administrator | any unauthorised user, e.g. id 1 named "Ana" | The bullets are escaped as `\-`, so the request reaches the administrator | not executed; medium, rests on the Telegram Bot API's MarkdownV2 rules | Bot.AsWrittenRequestRefused | Bot.RequestAccepted |
| bot.py:40-41 | The escape set lacks the backslash, so a backslash in user data consumes the escape of the following special character | first name `\.` | User data can never alter the markup: the backslash is escaped too | not executed; medium, rests on the Telegram Bot API's MarkdownV2 rules | Bot.BackslashDefeatsEscape | Bot.FullyEscapedIsAccepted |
