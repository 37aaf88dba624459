# Abonos Riazor Berberecho — a Dafny model of the pass manager

The application manages the ten season tickets ("abonos") of a supporters' club at the Riazor
stadium. An administrator downloads the club's roster from a published spreadsheet. The
administrator then assigns a member to each of the ten passes and sends each member a link to
their pass, either directly or through WhatsApp. Opening the link shows a "verified pass" card
for four days after the last full reset. After that the link reports the pass as expired.

This project models the logic behind that flow as pure functions over immutable data, and proves
properties of it:

- `Csv` (csv.dfy) is the hand-written CSV reader `parseCSV`. It covers:
  - line filtering and header cleaning;
  - the regular-expression scanner, with its exact `exec` behaviour;
  - the row objects, including JavaScript's own-key order and the `__proto__` key.
- `Roster` (roster.dfy) turns each row object into a member. It covers:
  - column search by name fragment (`findKey`);
  - the image fallback;
  - the payment test;
  - the history scan over every column;
  - the final `...row` spread.
- `Utils` (utils.dfy) covers the WhatsApp link with its phone normalisation, and the four-day
  expiry.
- `Dashboard` (dashboard.dfy) is the administrator's page. It covers:
  - the ten passes;
  - the greeting name;
  - the pass link;
  - assigning and unassigning members, with the "already assigned elsewhere" guard;
  - the member search with its twenty-entry cut;
  - the full reset;
  - the copy kept in the browser's storage.
- `Viewer` (viewer.dfy) is the public pass viewer (`SecureViewer`) and the router that picks it.
  It proves that a link made by the dashboard is read back into the same parameters. It also
  proves which screen the viewer shows for that link.
- `Cascade` (cascade.dfy) is the image cascade of the pass card. It covers the Google Drive file
  id, the candidate addresses, and the load/error state machine.
- `Text`, `Numbers` and `Types` (text.dfy, numbers.dfy, types.dfy) give JavaScript's string
  primitives the meaning the runtime gives them. These are `trim`, `split`, `join`, `includes`,
  case mapping, `toString` and `parseInt`. The files also hold generic sequence facts.

Some inputs come from outside the model and appear as explicit parameters:

- the current time (`now`);
- the downloaded text (`Option<string>`, where `None` is a failed request);
- the page address (`href`);
- `confirm()`'s answer;
- values held in browser storage.

`encodeURIComponent` and the form encoding of `URLSearchParams` are likewise function-valued
parameters. The link round trip assumes only what `GoodEncoding` states: decoding undoes encoding,
and encoded text contains none of `& = # ?`.

The code reads a payment cell as paid whenever it starts with `S`, `Y`, `T` or `1`, because
those single letters are themselves among the positive words and the test uses `startsWith`.
So `"SIN PAGAR"` ("unpaid") reads as paid. The model keeps this behaviour and states it in
`Roster.PositiveTextIff` and `Roster.PositiveTextExamples`.

## Model

| member | source | states |
|---|---|---|
| Types.FilterSeq | App.tsx:224-227 | `Array.prototype.filter`: the result holds exactly the elements that pass the test and never grows longer than the input |
| Types.FilterIsSubsequence | App.tsx:224-227 | filtering keeps the elements in their original order (the result is a subsequence of the input) |
| Types.Take | App.tsx:429 | `slice(0, n)`: a prefix of the input, of length `n` or the whole input when it is shorter |
| Text.Trim | utils.ts:20 | `trim` returns the middle slice of its input, with only whitespace cut on both sides and no whitespace left at either end |
| Text.TrimPadded | utils.ts:8 | `trim` removes exactly the whitespace that pads a text whose ends are not whitespace |
| Text.TitleCaseIsTitleCased | App.tsx:41 | the lower-case-then-capitalise-each-word rewrite is idempotent: applying it to its own output changes nothing |
| Text.ContainsIff | services/googleSheet.ts:40 | `includes` holds exactly when the searched text occurs at some position |
| Text.SplitJoin | utils.ts:8 | splitting pieces joined with a separator they do not contain gives the pieces back |
| Text.SplitSpacesJoin | App.tsx:44 | `split(/\s+/)` of words joined by single spaces gives the words back |
| Numbers.ParseIntOfIntToString | App.tsx:131 | `parseInt` reads back exactly the integer that `toString` wrote, negatives included |
| Numbers.ParseIntWithoutDigits | App.tsx:607 | a text with no decimal digit parses to `NaN` |
| Csv.Put | utils.ts:20 | assigning a key sets that key and leaves every other key as it was; an assignment to `__proto__` changes nothing; a well-formed object stays well-formed |
| Csv.ObjectKeys | services/googleSheet.ts:35 | `Object.keys` lists every own key exactly once (a permutation of the creation order) |
| Csv.ObjectKeysOrder | services/googleSheet.ts:35 | `Object.keys` puts array-index keys first, in ascending numeric order, and keeps the other keys in creation order |
| Csv.ScanValues | utils.ts:14 | the loop never collects more values than there are headers |
| Csv.ScanEncoded | utils.ts:11-16 | a line written by a spreadsheet export is read back cell for cell, commas inside quoted cells included, when no cell holds a double quote and the first cell is not empty |
| Csv.ScanPlain | utils.ts:13-16 | a quote-free line not starting with a comma yields the pieces between commas, empty ones included, cut at the header count |
| Csv.LeadingCommaShift | utils.ts:13-16 | on a line starting with a comma (an empty first cell) the comma alternative consumes the comma, so every value lands one column to the left |
| Csv.Headers | utils.ts:8 | there is one header per comma-separated piece of the first line; each is the trimmed piece with a leading `"` removed if present and a trailing `"` removed if present, each independently |
| Csv.StripQuotes | utils.ts:8 | a text between quotes loses them, and a text with no quote at either end is unchanged |
| Csv.CleanHeaderQuoted | utils.ts:8 | a quoted header name with spaces around it is read as the bare name |
| Csv.CleanHeaderPlain | utils.ts:8 | a header with no quotes and no surrounding spaces is kept as written |
| Csv.HeadersOfJoin | utils.ts:8 | a header line of plain names joined by commas is read back as those names |
| Csv.BuildRecord | utils.ts:18-22 | a row object's keys are exactly the header names (except `__proto__`); a header holds the trimmed value at its last position, or `''` when the line had fewer values |
| Csv.BuildPrefixValue | utils.ts:19-21 | after the first `k` assignments, a header not repeated among them holds the value of its own position |
| Csv.Row | utils.ts:10-22 | every row object is well-formed, and its keys are the header names |
| Csv.ParseCsv | utils.ts:4-10 | there are no rows unless at least two non-blank lines exist; otherwise there is one row per non-blank line after the first |
| Csv.ParseLinesRow | utils.ts:8-23 | row `i` is read from non-blank line `i + 1` against the header names of the first line |
| Csv.ParseCsvOfTable | utils.ts:4-24 | reading an exported table yields one record per table row, each read from that row's own line |
| Csv.RowOfEncoded | utils.ts:10-22 | a row written by the export maps each column name to its own cell |
| Csv.TableRoundTrip | utils.ts:4-24 | reading an exported table back: row `i`'s keys are the column names, and column `j` holds the cell the table had there |
| Utils.DropLeadingZeros | utils.ts:80 | only zeros are removed, all of them from the front, and the rest is a suffix of the input |
| Utils.PhoneDigits | utils.ts:76-80 | the cleaned phone is all digits and does not start with zero |
| Utils.NonDigitIgnored | utils.ts:75-87 | a character that is not a digit, inserted anywhere in the phone, leaves the normalised phone unchanged |
| Utils.NormalisePhoneIdempotent | utils.ts:76-87 | normalising a normalised phone changes nothing |
| Utils.NormalisePhonePrefixes | utils.ts:76-87 | a local Spanish number, the same number with `+34`, and the same number with `0034` all give the same normalised phone |
| Utils.WhatsAppLinkParts | utils.ts:89-93 | the link is the WhatsApp address, followed by the normalised phone up to the first `&`, followed by `&text=` and the encoded message |
| Utils.ExpiryWindow | utils.ts:96-103 | a pass issued at `issued` is expired at `now` exactly when more than four days have passed, and stays expired later |
| Roster.FindIndex | services/googleSheet.ts:40 | `keys.find`: the first key whose lower-cased form contains the lower-cased term, and none before it; no result when no key matches |
| Roster.FindKeyFirst | services/googleSheet.ts:38-44 | `findKey` gives `''` exactly when no key matches any term; otherwise it gives the first key, in key order, matching the first term that any key matches |
| Roster.ImageUrlChoice | services/googleSheet.ts:47-55 | the member image is never empty: it is the image column's value when present and non-empty, else default image number `index mod 10` (both fallback branches agree) |
| Roster.CleanValue | services/googleSheet.ts:60 | the cleaned payment value has no quotes and no surrounding whitespace |
| Roster.PositiveTextIff | services/googleSheet.ts:62-71 | a cleaned value counts as paid exactly when it starts with `S`, `Y`, `T` or `1`, or with one of the longer positive words |
| Roster.PositiveTextExamples | services/googleSheet.ts:71 | `"SIN PAGAR"` counts as paid, while `"NO"` and `""` do not |
| Roster.NoPaymentColumn | services/googleSheet.ts:58-71 | a sheet without a payment column marks the member unpaid |
| Roster.ListItem | services/googleSheet.ts:86-88 | a list item is kept trimmed, and dropped exactly when it is empty or `NO` in any case |
| Roster.ListItems | services/googleSheet.ts:86-89 | an entry comes from a list cell exactly when it is the kept form of one of its pieces |
| Roster.ListItemsAppend | services/googleSheet.ts:86-89 | the kept items follow the pieces' order: the items of two runs of pieces are those of the first run, then those of the second |
| Roster.ListColumnEntries | services/googleSheet.ts:85-90 | a list column (historial, anteriores, ganados, history, premios) contributes exactly the kept items of its value split at `,` and `;` |
| Roster.ListItemsExample | services/googleSheet.ts:86-89 | the cell `Celta; no ;Betis` lists `Celta` and `Betis`; the `no` between them is dropped |
| Roster.IsNoIff | services/googleSheet.ts:88 | the case-insensitive test for `NO` is exactly `toUpperCase() === 'NO'` |
| Roster.AddAll | services/googleSheet.ts:75-103 | `Set.add` keeps the entries distinct and holds exactly the old entries plus the added ones, the old ones first and in their old order |
| Roster.AddAllDedup | services/googleSheet.ts:75-103 | adding entries keeps the old ones in place and appends each new entry once, at its first occurrence |
| Roster.AddAllAppend | services/googleSheet.ts:75-103 | adding one list of entries and then another is adding their concatenation |
| Roster.HistoryOrder | services/googleSheet.ts:75-109 | the history lists every column's entries, columns in key order, each entry once at its first occurrence |
| Roster.HistoryFromMembers | services/googleSheet.ts:77-107 | an entry is in the history exactly when some column contributes it |
| Roster.HistoryShape | services/googleSheet.ts:75-109 | the history's entries are distinct and non-empty, and each one is contributed by some column |
| Roster.PartidoExcluded | services/googleSheet.ts:93-96 | a "Partido" column never contributes, because `partido` contains the excluded fragment `id` |
| Roster.SurnameAsId | services/googleSheet.ts:112 | without an `id` column, a surname column (`apellidos` contains `id`) with no `id`-like column before it supplies the member's id |
| Roster.SurnameBeforeIdColumn | services/googleSheet.ts:38-44 | for the columns `Apellidos, ID` the id column found is `Apellidos` |
| Roster.MatchColumnEntries | services/googleSheet.ts:93-105 | a match column that is neither a list column nor an excluded one contributes its match entry |
| Roster.MatchEntryCases | services/googleSheet.ts:98-104 | a positive word records the column name; a longer text records the text; anything else records nothing |
| Roster.JornadaMarked | services/googleSheet.ts:93-104 | a "Jornada" column marked with a positive word records the column name, and one holding a longer text records that text |
| Roster.PaidFlag | services/googleSheet.ts:58-72 | `paid` is `SI` or `NO`, and it is `SI` exactly when the cleaned, upper-cased payment value starts with `S`, `Y`, `T` or `1`, or with one of `PAGADO`, `PAGADA`, `OK`, `ACTIVO`, `ACTIVA`, `AL CORRIENTE`, `COMPLETADO` |
| Roster.MemberIdentity | services/googleSheet.ts:111-118 | a member keeps every column; without an `id` column its id is never empty; an `id` column wins even when blank; without a `name` column its name is never empty |
| Roster.MemberPaid | services/googleSheet.ts:58-115 | without a `paid` column, the member's `paid` is `SI` exactly when its payment cell reads as positive |
| Roster.MemberImageAndHistory | services/googleSheet.ts:47-117 | without `imageUrl` and `history` columns, the member's image is the column value or the positional default, and its history is the scanned list |
| Roster.ParseCsvValid | services/googleSheet.ts:32-35 | every row the reader returns is a well-formed object |
| Roster.FetchMembers | services/googleSheet.ts:24-124 | a failed download gives no members; otherwise there is one member per parsed row |
| Roster.FetchMembersAt | services/googleSheet.ts:34 | member `i` is built from row `i`, whose position picks its fallback image |
| Dashboard.FindSlotIn | App.tsx:620 | `find` returns a pass with the requested number, or nothing when no pass has it |
| Dashboard.SlotsNumbered | App.tsx:16-27 | there are ten passes, numbered 1 to 10 in order, and pass `k` shows default image `k` |
| Dashboard.FindSlotIff | App.tsx:618-624 | a pass number is found exactly when it lies between 1 and 10, and then it is that pass |
| Dashboard.FirstNameTitleCased | App.tsx:33-60 | the greeting name is always in title case |
| Dashboard.FirstNameOfWords | App.tsx:44-59 | without a comma, three or more words greet by everything after the two surnames, two words greet by the second, and one word greets by itself |
| Dashboard.FirstNameWithComma | App.tsx:39-42 | with a comma, the greeting is the trimmed piece after the first comma |
| Dashboard.FirstNameOfEmpty | App.tsx:34 | an empty name gets the greeting `Socio` |
| Dashboard.FirstNameOfBlank | App.tsx:34-36 | a name of whitespace only is not falsy, so it gets an empty greeting rather than `Socio` |
| Dashboard.BaseUrl | App.tsx:65 | the base address is the page address up to its first `#` or `?`, or all of it when it has neither |
| Dashboard.LinkParams | App.tsx:68-71 | the link carries `id` first, then `t` and `slot` only when they are truthy |
| Dashboard.BaseUrlOfPassLink | App.tsx:63-75 | the base address of a pass link is the base address of the page that made it |
| Dashboard.InitialResetTime | App.tsx:129-132 | with nothing stored, the reference time starts at now |
| Dashboard.Mount | App.tsx:144-162 | mounting loads the fetched roster, with no pass selected and the dialog closed |
| Dashboard.OpenAssignment | App.tsx:196-200 | opening the dialog selects the pass, clears the search, and leaves the assignments alone |
| Dashboard.AssignMember | App.tsx:202-210 | with a pass selected, the member is put on that pass, the selection is cleared and the dialog closes; without a selection nothing changes |
| Dashboard.UnassignMember | App.tsx:212-221 | with a pass selected, that pass is emptied and nothing else is; without a selection nothing changes |
| Dashboard.ChooseMember | App.tsx:431-437 | clicking a member who already holds another pass changes nothing; clicking any other member puts them on the selected pass and closes the dialog |
| Dashboard.ChooseKeepsUniqueIds | App.tsx:431-437 | when no member holds two passes, that stays true after a click; a member holding another pass is blocked; re-choosing the current pass's holder is not blocked |
| Dashboard.UnassignKeepsUniqueIds | App.tsx:212-221 | unassigning keeps every member on at most one pass |
| Dashboard.FullReset | App.tsx:165-193 | a declined reset changes nothing; a confirmed one empties every pass, reloads the roster, and moves the reference time to now |
| Dashboard.HandlersKeepMirrored | App.tsx:165-221 | every handler keeps the stored copy of the assignments equal to the assignments shown |
| Dashboard.MountMirrored | App.tsx:148-154 | mounting shows exactly the stored assignments, or none when nothing is stored, and keeps them mirrored in storage |
| Dashboard.ResetTimeSurvivesReload | App.tsx:183-185 | after a reset, reloading the page at any later time reads back the reset time |
| Dashboard.FilteredMembers | App.tsx:224-227 | the search lists exactly the roster members whose name or id contains the search text, ignoring case |
| Dashboard.ShownMembers | App.tsx:429 | the dialog lists the first twenty matches, or all of them when there are fewer |
| Dashboard.SearchOrder | App.tsx:224-227 | the search keeps the roster's order, and an empty search lists everyone |
| Viewer.HashOf | App.tsx:592 | `location.hash` is empty or starts with `#` |
| Viewer.GetParam | App.tsx:595-597 | `get` returns the value of the first pair with the name, or nothing when no pair has that name |
| Viewer.FindMember | App.tsx:629 | `find` returns the first roster member with the link's id, or nothing when no member has it |
| Viewer.ForcedImage | App.tsx:618-624 | a forced image is always one of the ten pass images |
| Viewer.ExpiredAtIsExpired | App.tsx:609-610 | the viewer's 96-hour rule is the same four-day window as `getExpirationDate`/`isExpired` |
| Viewer.DecideVerified | App.tsx:626-672 | a verified pass shows a roster member, with that member's image or one of the ten pass images |
| Viewer.HashOfPassLink | App.tsx:592 | the fragment of a pass link is the view route followed by the parameters |
| Viewer.QueryOfPassLink | App.tsx:593 | the query of that fragment is the serialised parameters |
| Viewer.ParsePiecesOfEncoded | App.tsx:594 | parsing serialised pairs gives the pairs back |
| Viewer.ParamsOfPassLink | App.tsx:592-594 | the viewer reads a pass link back into exactly the parameters the dashboard put in it |
| Viewer.LinkParamsLookup | App.tsx:595-597 | the viewer finds the link's id, and finds `t` and `slot` exactly when they were truthy |
| Viewer.ExpiredParamOfNumber | App.tsx:606-615 | a link's `t` expires the pass exactly when it is truthy and more than 96 hours before now |
| Viewer.ForcedImageOfNumber | App.tsx:618-624 | a link's `slot` forces pass image `slot` exactly when it is truthy and between 1 and 10 |
| Viewer.PassLinkDecision | App.tsx:590-672 | for a link the dashboard made, the viewer shows: invalid link for an empty id; otherwise expired when past 96 hours; otherwise not found for an unknown id; otherwise the member, with the slot's image when the slot is 1–10 and the member's own image otherwise |
| Viewer.PassLinkRoutesToViewer | App.tsx:682-684 | every pass link opens the viewer, never the dashboard |
| Cascade.DriveIdFromLeftmost | components/CardCanvas.tsx:45-46 | the Drive id is taken from the leftmost `/d/` or `id=` match; no id means no match anywhere |
| Cascade.DriveIdOfDirectLink | components/CardCanvas.tsx:45-55 | the id is read back from the direct export link built from it |
| Cascade.DriveIdOfOpenLink | components/CardCanvas.tsx:45-46 | the id is read from a Drive `open?id=` address, stopping at the next `&` |
| Cascade.DriveIdOfFileLink | components/CardCanvas.tsx:45-46 | the id is read from a Drive file address |
| Cascade.Candidates | components/CardCanvas.tsx:41-67 | there are no candidates exactly when there is no address, and never more than three |
| Cascade.CandidatesOfFileLink | components/CardCanvas.tsx:55-66 | a Drive file address gives the proxied direct export, then the thumbnail, then the direct export of the same file |
| Cascade.CandidatesOfPlainUrl | components/CardCanvas.tsx:48-53 | an address without a Drive id is tried as it is first, then through the proxy |
| Cascade.OnError | components/CardCanvas.tsx:81-88 | a failure moves to the next candidate, keeping the state, when there is one; otherwise the index stays and the state becomes the error state |
| Cascade.CurrentSource | components/CardCanvas.tsx:69 | the current source is a candidate exactly when the index is in range |
| Cascade.RunInRange | components/CardCanvas.tsx:81-88 | whatever the image reports, the index stays on an existing candidate |
| Cascade.FailuresWalkCandidates | components/CardCanvas.tsx:81-88 | `k` failures in a row try candidate `k`; after the last candidate fails, the fallback shows on the last one |
| Cascade.LoadAfterFailures | components/CardCanvas.tsx:69-92 | a load after `k` failures shows candidate `k` as a success |

## Left out

- Network access, `localStorage`, `window.confirm`, `alert` and the clock are not modelled as
  effects. Their results are parameters: the downloaded text, the stored values, the answer, and
  `now`.
- Loading and spinner flags, and the React rendering, are left out. Only the screen the viewer
  decides on and the dashboard's state are modelled.
- JSON is not modelled. The stored assignments are kept as the map they encode, so the
  `JSON.parse`/`JSON.stringify` round trip is assumed. The `catch` around `JSON.parse` is not
  modelled.
- `encodeURIComponent`, `decodeURIComponent` and the form encoding of `URLSearchParams` are
  function parameters. The link round trip relies only on `GoodEncoding`.
- Case mapping covers the ASCII and Latin-1 letters that map to a single letter, with `ÿ`
  paired with `Ÿ` (U+0178). Other scripts are left unchanged, whereas JavaScript maps them too.
- `ß` and `µ` are left unchanged by the model's upper-casing. In JavaScript `"ß".toUpperCase()`
  is `"SS"`, which changes the string's length, and `µ` upper-cases to `Μ` (U+039C). A payment
  cell `"ß"` reads as paid in JavaScript (it becomes `"SS"`, which starts with `S`) but as
  unpaid in the model.
- Text.TitleCaseIsTitleCased: matches JavaScript only for text without `ß` and `µ`, for the
  reason above.
- Dashboard.FirstNameTitleCased: matches JavaScript only for names without `ß` and `µ`.
- Strings are sequences of code points, not UTF-16 code units.
- Numbers are unbounded integers. `parseInt` is modelled for whole numbers, with `NaN` as
  `None`. Floating-point precision, `Infinity` and fractional reference times are not modelled.
- `handleFullReset`'s `catch` branch is not modelled. `fetchMembers` catches every failure
  itself, so that branch cannot be reached.
- The viewer's `catch` around `fetchMembers` is not modelled, for the same reason.
- Roster.PaymentValue: the branch where the found payment column has no value cannot happen,
  because the keys are the row's own. It returns `'NO'` only to keep the function total.
- services/cloudBridge.ts stores an `activeRaffle`, but no code draws one, so no raffle is
  modelled.
- `encodeCardData`, `decodeCardData` and `getCardDataFromUrl` are left out. They are not used
  by the pass flow.
- The WhatsApp message text (`getWhatsAppMessage`), the expiry text on the card, the generated
  SVG fallback image and the image download are presentation only, so they are left out.
- `handlePreview` and the quick-share dialog are presentation only, so they are left out.
- services/cloudBridge.ts is not part of this model. It is a separate storage path that the
  pass flow does not use.
- vite.config.ts is build configuration, so it is not part of this model.
- `getExpirationDate` and `isExpired` are modelled (Utils.ExpirationDate, Utils.IsExpired) even
  though the pages do not call them. The viewer uses its own 96-hour rule, and
  Viewer.ExpiredAtIsExpired proves the two agree.
- Csv.ScanEncoded: proved only for cells without double quotes and with a non-empty first cell.
  The regular expression cannot read a quote inside a quoted cell. An empty first cell shifts
  the values, which Csv.LeadingCommaShift states.
- Csv.TableRoundTrip: proved for tables with distinct, plain column names whose rows all have a
  non-empty first cell and cells without surrounding spaces, double quotes or line breaks. For
  other tables it states nothing about the values. An empty first cell shifts the values one
  column to the left, which Csv.LeadingCommaShift states. Repeated names keep
  the last value, which Csv.BuildRecord states.
- Roster.MemberIdentity: states only the `id` and `name` facts and the spread of the columns.
  The phone field follows the same `findKey`/`Spread` rule and has no lemma of its own.
- Dashboard.FirstNameOfWords and Dashboard.FirstNameWithComma: proved for names written as
  single-space-separated words, and as comma-separated pieces of a trimmed name, respectively.
  Dashboard.FirstNameTitleCased covers every name.
