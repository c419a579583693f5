# Electrolab service front-end: the decision logic of `app.py`

The system is a small Flask front-end to an ERP. It lets field staff look up
a customer's zonal manager and the details of an instrument serial number,
and file Issue and Warranty Claim forms. Almost everything it does is an
HTTP pass-through. This project models the deterministic logic between the
requests, with the ERP replies, today's date and the date parser passed in
as parameters.

- `wrappers.dfy`, module `Wrappers`: `Option` and `Result`. A nullable
  cell of a fetched table (JSON null, pandas NaN) is `None`.
- `text.dfy`, module `Text`: Python's `str.strip()`, with the exact
  `str.isspace()` character set. Also `", ".join(...)` and the decimal
  rendering of a status code.
- `email.dfy`, module `Email`: `is_valid_email`, as a predicate equivalent
  to the regular expression `^[^@]+@[^@]+\.[^@]+$`.
- `tables.dfy`, module `Tables`: the pandas operations the code relies on.
  Tables are sequences of records. The module covers `merge` (left and
  inner), `drop_duplicates(keep='first')` and `Series.unique()`.
- `reconcile.dfy`, module `Reconcile`: `load_and_preprocess_data`, which
  builds the customer to zonal-manager map. It runs these steps in order:
  1. the Employee / Service Person merge;
  2. the two manual rows;
  3. the four name corrections;
  4. the Customer / Territory merge;
  5. the right merge on `parent_territory`;
  6. the two fill passes of `fill_zonal_managers`;
  7. the reduction to a map.
- `handlers.dfy`, module `Handlers`: the decisions inside
  `get_zonal_manager`, `get_issue_table` and `get_serial_details`, and the
  warranty-status classifier.
- `forms.dfy`, module `Forms`: `submit_form` and `submit_form_warranty`.
  This covers the email gate, the payloads, the item-row loop, and the
  flash message and mail that follow the ERP's reply.

The code works by step-by-step updates in three places, and those are
Dafny methods with loops or reassigned locals, proved against
specification functions:

- `Reconcile.LoadAndPreprocess`, the column reassignments;
- `Reconcile.FillZonalManagers` and `Reconcile.TerritoryManagerLookup`, the
  fill and its dictionary loop;
- `Forms.CollectIssueDetails`, `Forms.SubmitIssue` and
  `Forms.SubmitWarranty`, the item loop and the payload completion.

Everything else is functions and lemmas.

Behaviour that is pandas' own rather than the program's is stated
explicitly:

- merge keys are compared as values, so a null key matches a null key;
- a merge lists the left rows in order, each followed by its matches in
  the right table's order, and `dropna` keeps row order, which is what
  the "first row" picks (`iloc[0]`) rely on;
- a group-wise `transform` gives null to rows whose group key is null;
- `to_dict` keeps the last row of a repeated index.

## Model

| member | source | states |
|---|---|---|
| Email.IsValidEmail | app.py:13-16 | the check accepts exactly the strings that are a non-empty `@`-free part, `@`, a non-empty `@`-free part, `.`, a non-empty `@`-free part |
| Email.Examples | app.py:13-16 | "a@b.com" is accepted; "a@b", "abc" and "" are rejected |
| Text.Strip | app.py:292 | `strip()` returns a middle slice whose removed prefix and suffix are all whitespace, and the slice itself neither starts nor ends with whitespace |
| Text.StripEmptyIffBlank | app.py:331 | stripping gives "" exactly when every character is whitespace |
| Text.StripsToSomething | app.py:331 | the truth value of `s.strip()` is "s is not blank" |
| Text.NatToStringRoundTrip | app.py:372 | reading back the decimal digits of a status code gives the code |
| Tables.LeftJoin | app.py:64 | a left merge holds every matching pair and every unmatched left row on its own, and each output row comes from a left row and either a right row with the same key or no right row with that key |
| Tables.InnerJoin | app.py:236 | an inner merge holds exactly the pairs of rows with equal keys |
| Tables.Pairs | app.py:64 | the rows built from one left row list its matches one by one, in the right table's order |
| Tables.MatchingAppend | app.py:64 | the matches of a key in two tables one after the other are those of the first followed by those of the second: matches keep the right table's order |
| Tables.LeftJoinOne | app.py:64 | one left row contributes one row per match, in the right table's order, or itself alone when nothing matches |
| Tables.LeftJoinAppend | app.py:64 | a left merge of two tables one after the other is the merge of the first followed by that of the second, so left rows keep their order and each contributes its rows exactly once |
| Tables.InnerJoinOne | app.py:236 | one left row contributes one row per match, in the right table's order, and nothing when nothing matches |
| Tables.InnerJoinAppend | app.py:236 | an inner merge keeps the left table's order in the same way |
| Tables.DropDuplicates | app.py:234 | keeping the first row per key keeps only rows of the input, keeps every key, leaves no key twice, and each kept row is the first of its key |
| Tables.DropDuplicatesSnoc | app.py:234 | the kept rows stay in table order: a row appended to a table is appended to the result exactly when no earlier row has its key |
| Tables.Unique | app.py:122 | `unique()` has the same elements as its input, each once |
| Reconcile.EmployeeManagers | app.py:64-65 | every employee is paired with each Service Person of that employee, or kept alone with a null manager and territory; every row comes from an employee, and every manager is the name of one of that employee's Service Persons |
| Reconcile.ReplaceManager | app.py:75-78 | one `replace` keeps every row and every column but the manager; a manager equal to the source spelling as a whole becomes the target, and every other row is unchanged |
| Reconcile.ReplacementsAreCorrections | app.py:75-78 | the four successive whole-value replacements equal one lookup in the correction table, because they never chain |
| Reconcile.CanonicalWholeValue | app.py:75-78 | a name changes only when the whole name is a recorded spelling, and what it becomes is never a recorded spelling |
| Reconcile.ManualRowCorrected | app.py:68-78 | the manual "Anuraj T. R" row is in the table under manager "Anuraj T", and no manager in the table is left under a recorded spelling |
| Reconcile.CustomerTable | app.py:111 | each customer gets the parent of its territory, or a null parent when its territory is unknown; nothing else is in the table |
| Reconcile.Joined | app.py:112 | each customer is paired with every manager of its parent territory, or kept once with no manager; every row is a customer's, and any manager in it is listed under the row's parent territory |
| Reconcile.FirstManager | app.py:117 | the group's value is null exactly when no row of the group has a manager; otherwise it is the manager of the first such row |
| Reconcile.JoinedAppend | app.py:112 | the joined table lists the rows of each customer row in customer-table order |
| Reconcile.JoinedOne | app.py:112 | a customer row's rows are one per manager-table row of its parent territory, in manager-table order, or the row with no manager |
| Reconcile.FirstListed | app.py:61-78 | the manager of the first manager-table row under a parent territory that has one: null exactly when no row under it has a manager, otherwise the manager of the row at the first such position, no earlier row being listed under it with a manager |
| Reconcile.FirstManagerAppend | app.py:117 | the first manager of a group in two tables one after the other is the first one's, when it has one, and otherwise the second one's |
| Reconcile.JoinedGroupManager | app.py:112-117 | in the joined table, the first manager of a parent-territory group that holds some customer is the first manager listed under it in the manager table |
| Reconcile.NullManagerTakesFirstListed | app.py:112-118 | after pass A, a joined row with a parent territory and a null manager holds the manager of the first manager-table row listed under that territory with one |
| Reconcile.PassA | app.py:116-118 | pass A keeps every column but the manager, never changes a present manager, leaves groups without any manager unchanged, fills a null with the group's first manager, and gives null to rows with a null parent territory |
| Reconcile.FillFromLookup | app.py:126 | only a row with a null manager and a parent territory changes, and only its manager; it gets the dictionary's entry for its parent territory, and stays null when there is none |
| Reconcile.PassB | app.py:119-126 | pass B changes only rows still null; it fills each from the first row whose customer territory is that row's parent territory and has a manager, or leaves it null |
| Reconcile.PassBDoesNotChain | app.py:121-126 | on a three-row table a pass-B fill does not feed another pass-B fill |
| Reconcile.MaskedParents | app.py:122 | the territories looped over are exactly the parent territories of the rows still null |
| Reconcile.TerritoryManagerLookup | app.py:121-125 | the dictionary built by the loop maps a territory to that territory's first listed manager, and it covers the parent of every null row that has a supplier |
| Reconcile.LookupFillsLikePassB | app.py:126 | assigning through that dictionary to the null rows gives pass B |
| Reconcile.FillZonalManagers | app.py:114-127 | the fill method's result is pass B applied to pass A |
| Reconcile.PassesOnlyCopyManagers | app.py:114-127 | every manager either pass leaves in a row was already some row's manager |
| Reconcile.GroupManagerSurvivesFill | app.py:116-126 | a row whose parent-territory group has a manager anywhere ends the fill with a manager |
| Reconcile.ToMap | app.py:130-132 | the map has exactly the customers of the table, and each maps to the manager on its last row |
| Reconcile.LoadAndPreprocess | app.py:26-132 | no map exactly when one of the four requests is not answered 200; otherwise the map of the whole pipeline |
| Reconcile.FillKeepsNames | app.py:114-132 | every customer of the joined table is a key of the map |
| Reconcile.FillOnlyCopiesManagers | app.py:114-132 | every manager the map hands out was some row's manager before the fill |
| Reconcile.EveryCustomerHasEntry | app.py:111-132 | every fetched customer is a key of the map |
| Reconcile.MapNamesOnlyTableManagers | app.py:64-132 | every manager in the map is a manager of the manager table, and none is a recorded spelling |
| Reconcile.CustomerGetsGroupManager | app.py:111-132 | a customer whose territory's parent has a listed manager gets a manager in the map, given unique customer and territory names |
| Handlers.LookupAsWritten | app.py:141-151 | the reply is 400 exactly when the customer or the map is missing or empty; "Not Found" exactly when the customer is absent or mapped to ""; otherwise the map's value, a null included |
| Handlers.LookupAsWrittenAnswersNull | app.py:145-147 | a customer mapped to a null manager is answered with that null |
| Handlers.Lookup | app.py:141-151 | the corrected lookup: 400 in the same cases; a reply with a manager always carries a non-empty name; "Not Found" when there is none |
| Handlers.LookupsDifferOnlyOnNull | app.py:145-149 | the two lookups differ exactly for a customer mapped to a null manager |
| Handlers.CompleteRows | app.py:182 | `dropna` keeps exactly the records with all six fields present, and yields nothing exactly when none is complete |
| Handlers.CompleteRowsAppend | app.py:182 | `dropna` keeps the records' order and each complete record once: the rows of two tables one after the other are those of the first followed by those of the second |
| Handlers.CompleteRowsOne | app.py:182 | a single record yields its row when complete and nothing otherwise |
| Handlers.IssueTable | app.py:168-185 | the reply is 500 exactly when the status is not 200; with no records or a missing column it is an empty list; otherwise every row comes from a complete record |
| Handlers.IssueTableIsDropna | app.py:172-183 | on a 200 reply the table is exactly the complete records, so every complete record is listed |
| Handlers.DateOrderTotal | app.py:255 | date comparison is a total order |
| Handlers.WarrantyStatus | app.py:252-257 | "Unknown" exactly when parsing fails; "Under Warranty" exactly when the expiry is on or after today; "Out of Warranty" exactly when it is earlier |
| Handlers.WarrantyEndsAfterExpiryDay | app.py:255 | on its expiry day a warranty still holds; on any later day it does not |
| Handlers.SerialJoin | app.py:232-236 | every merged row pairs a serial record with the first address of its customer |
| Handlers.SerialJoinCovers | app.py:234-236 | every serial record whose customer has an address meets that customer's first address |
| Handlers.FirstWithName | app.py:244-248 | none exactly when no merged row has the serial's name; otherwise the row at the first position with that name, every earlier row having another name |
| Handlers.OptionalColumn | app.py:261-266 | "" when no record has the column; otherwise the record's value, or null when its cell is empty |
| Handlers.MaintenanceStatus | app.py:250-257 | "Unknown" exactly when the expiry date is null or does not parse; "Under Warranty" exactly when it parses to today or later; "Out of Warranty" exactly when it parses to a day before today |
| Handlers.ManagerOf | app.py:249 | the map's value for the customer, or "" when the customer is null or unknown |
| Handlers.SerialDetails | app.py:188-269 | 400 exactly for an empty serial; 404 when a request fails, the serial reply is empty, or (with both replies well formed) no record of that name has a customer with an address; a details reply reports a record with that name, its customer's first address, its expiry status and its customer's manager |
| Handlers.SerialFoundIffAddressed | app.py:236-246 | with well-formed replies, details are returned exactly when a record with that name has a customer with an address |
| Forms.ContactEmail | app.py:292 | the contact email has no whitespace at either end, so stripping it again changes nothing, and it is empty exactly when the submitted field is missing or blank |
| Forms.EmailAccepted | app.py:292-293 | the gate passes exactly when the stripped contact email matches the pattern |
| Forms.BlankEmailRejected | app.py:292-295 | a blank contact email never passes |
| Forms.RecordName | app.py:345-367 | the ERP's `data.name` when the body is readable and has one, and "Unknown" when the body cannot be read or carries no name |
| Forms.AfterPost | app.py:345-375 | a mail goes to the contact exactly when the reply is ok and readable; the flash is a success exactly when the reply is ok, and then names the record as `RecordName` does, as does the mail body; otherwise it names the status, or the exception message |
| Forms.UnreadableReplyIsUnknown | app.py:345-370 | an ok reply whose body cannot be read flashes success with the name "Unknown" and sends no mail |
| Forms.NamelessReplyIsUnknown | app.py:345-370 | an ok reply without a name flashes and mails the name "Unknown" |
| Forms.FlashAndMailAgree | app.py:348-370 | the success flash and the mail carry the same record name, the ERP's name when it gave one |
| Forms.StatusFlashNamesStatus | app.py:372 | the error flash names the reply's status code |
| Forms.NonBlankIndicesExactly | app.py:330-331 | the kept positions are exactly the in-range positions of non-blank item names, in increasing order |
| Forms.CollectIssueDetails | app.py:325-337 | the loop fails with "list index out of range" exactly when a non-blank name has no serial, code or id; otherwise it returns, in order, the rows at exactly the non-blank positions |
| Forms.IssueDescription | app.py:313-318 | the description reads back as the stripped description and a bold closing part holding the stripped contact name, a space, the stripped extension and the stripped phone number |
| Forms.IssuePayloadFor | app.py:297-339 | the issue payload copies the submitted fields and applies the subject cut, the defaults and the date rules; it carries the collected item rows as `issue_details` exactly when there are some |
| Forms.IssuePayloadForKeepsPromises | app.py:297-339 | the issue payload copies the submitted fields; it cuts the subject to 20 characters and applies the "NA", "ONLINE SUPPORT" and "Out Of Warranty" defaults; it defaults the generate date to today and the received date to the generate date; it includes item details only when some exist |
| Forms.SubmitIssue | app.py:280-376 | an invalid email posts nothing and flashes the error; a short item list posts nothing; otherwise the payload is posted and the reply decides the flash and the mail |
| Forms.BlankItemsPostNoDetails | app.py:338-339 | when every item name is blank, `issue_details` is absent |
| Forms.IssueDatesDefaultToToday | app.py:321-324 | with neither date submitted, both dates are today |
| Forms.WarrantyPayloadFor | app.py:395-422 | the complaint date is the submitted one, or today when it is missing or empty; the received date is the first submitted one, or the complaint date; `complaint_raised_by` reads back as the unstripped contact name, a space and the unstripped phone number |
| Forms.WarrantyDatesDefaultToToday | app.py:419-422 | with neither date submitted, both dates of the claim are today |
| Forms.RaisedByKeepsSpaces | app.py:415-417 | the claim's contact is not stripped: a leading space in the name is posted |
| Forms.SubmitWarranty | app.py:379-457 | an invalid email posts nothing; otherwise the claim posted is exactly the warranty payload of the form, and the reply decides the flash and the mail |

## Left out

- Every HTTP request to the ERP is left out. Each reply is a parameter holding a status code and the rows of its `data` (or the reply body of a post). The server-side filters, `like` matching and page sizes belong to the ERP.
- Sending mail over SMTP is left out, along with `static/emailtesting.py`. A mail is modelled as the message that would be sent; a failed send is swallowed by the source and changes nothing.
- Flask's `request`, `flash`, `redirect`, `jsonify` and `render_template` are left out, as are CORS and the random secret key. Outcomes are datatypes: a redirect target with a flash, or a JSON reply.
- `datetime.today()` is a parameter. `strptime` is an abstract parser, a function from string to an optional date; Python's calendar rules are not modelled.
- The `search_serials` endpoint and `static/script.js` are not part of this model.
- `print` calls are left out; they have no effect on replies.
- The loading of the map is left out: it happens once, at import time. The handlers take the map (or its absence) as a parameter.
- Records are modelled with only the fields the code reads. Extra fields in ERP replies are not modelled.
- Reconcile.LoadAndPreprocess: an empty reply is treated as an empty table. In pandas, a table built from an empty `data` has no columns, so the merge or rename raises `KeyError` and the application fails to start.
- Handlers.SerialDetails: a `KeyError` for a missing column is modelled as a server error (500), not as the exact exception. This covers an empty Address reply and a serial table without a needed column.
- Handlers.SerialDetails: the JSON null versus NaN distinction for cells of the details reply is not modelled; both are `None`.
- Reconcile.CustomerGetsGroupManager: assumes unique customer and unique territory names. These are record names, and the ERP enforces them as primary keys.
- Forms: the `name` in the ERP's reply to a post is taken to be a string; other JSON values there are not modelled.

## Findings

| source | as written | input that shows it | evidently intended | confidence | as-written member | corrected member |
|---|---|---|---|---|---|---|
| app.py:145-149 | `if zonal_manager:` is true for NaN, because NaN is a float and non-zero floats are truthy. A customer whose manager could not be filled is answered `{"zonal_manager": NaN}`. | a customer the fill passes left without a manager, so its map value is NaN | answer "Not Found" for a customer without a manager | medium, not executed | Handlers.LookupAsWrittenAnswersNull | Handlers.LookupsDifferOnlyOnNull |
