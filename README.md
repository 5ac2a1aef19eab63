# hyperf-bank withdraw core, modelled in Dafny

hyperf-bank is a small banking API. An account holder asks
`POST /account/{accountId}/balance/withdraw` for a PIX withdraw. It can be
immediate, which debits the balance at once, or scheduled for up to a week
ahead, in which case a console command settles it later. This project models
the parts of that workflow that decide what happens to the money and what the
user is told:

- **WithdrawService** (`withdraw_spec.dfy`, `withdraw_service.dfy`):
  `createWithdraw`, `executeWithdraw`, `processScheduledWithdraws`,
  `processScheduledWithdraw`, `sendWithdrawEmail` and
  `getUserFriendlyErrorMessage`. Each operation has two forms:
  - a specification function over the database contents (`WithdrawSpec`);
  - a method that runs the same steps against a `Persistence.Database`
    object, with its transaction snapshot and writes that may fail, and is
    proved equal to that function (`WithdrawService`).
- **Properties of the workflow** (`withdraw_properties.dfy`), proved about
  the specification functions:
  - balances never go negative;
  - a sweep touches only its own rows;
  - it resolves every due row;
  - a second sweep finds nothing;
  - the balance drops by exactly the settled amounts.
- **Scenarios** (`withdraw_scenarios.dfy`): concrete runs on one account.
- **InsufficientBalanceException** (`insufficient_balance.dfy`).
- **WithdrawRequest** (`withdraw_request.dfy`):
  - the rule list and its custom messages;
  - the framework validator's evaluation order, implicit rules and
    skipping of empty values;
  - `is_numeric` with its sign, decimal point and exponent;
  - `date_format:Y-m-d H:i` on a calendar, and `after:now` / `before:7 days`.
- **AccountController** (`account_controller.dfy`): validation, then account
  lookup (404), then the service call, mapped to 200, 400 or an escaping
  exception.
- **ProcessScheduledWithdrawsCommand** (`process_command.dfy`): the console
  lines and the exit status.
- **AbstractMail** (`mail.dfy`): the sender address, and the template path
  derived from the class name (strip the namespace, strip a trailing `Mail`,
  kebab-case).
- **MjmlService** (`mjml.dfy`): the `{{key}}` substitution loop with
  `htmlspecialchars`-escaped values.
- **MailerFactory** (`mailer_factory.dfy`): the transport DSN.

Modelling conventions:

- Money is an integer number of cents.
- Time is an integer number of seconds in the application's time zone.
- The database is a value `Model.Tables`: three maps keyed by id.
- Each database write takes a `Persistence.Fault`, which says whether the
  write succeeds or raises an error with a message. The model can therefore
  follow every `catch` block.
- The time the code reads from the clock is a parameter `now`.
- The id from `Str::uuid()` is a parameter `freshId`, required to be unused.

The model shows some behaviours of the source that its prose does not
mention. Each is proved as a lemma:

- A scheduled withdraw whose account save succeeds but whose withdraw save
  fails is rolled back, then saved with `error = true` while the in-memory
  object still carries `done = true`. The row then ends up both done and
  failed, with no money moved (`WithdrawProperties.DoneAndErrorTogether`).
- The request accepts `"pix"` as a method, but only `"PIX"` stores a PIX row.
  A lowercase request therefore never gets a mail
  (`WithdrawProperties.LowercasePixIsNeverMailed`).
- The custom message registered under `pix.required` is never shown, because
  `pix` is governed by `required_if` (`WithdrawRequest.PixRequiredTextIsNeverUsed`).
- A schedule given as a blank string passes validation. `createWithdraw`
  treats the empty string as immediate (`empty("")` holds) but a
  white-space-only string such as `"  "` as scheduled, and in both cases
  tries to store the blank text as the `scheduled_for` date. The model takes
  that insert to be refused (`AccountController.Invoke` ends with the
  `UnstorableSchedule` escape); "## Left out" states this assumption.
- A mail class without a namespace loses its first letter in the template
  name (`Mail.UnqualifiedLosesFirstChar`).
- `error_reason` is never written (`WithdrawProperties.SweepWritesNoErrorReason`).
- A scheduled withdraw's balance is checked only when it is settled
  (`WithdrawProperties.DeferredBalanceCheck`).

## Model

| member | source | states |
|---|---|---|
| WithdrawSpec.Execute | app/Service/WithdrawService.php:90-105 | succeeds iff the balance covers the amount and both saves succeed; a short balance throws InsufficientBalance(balance, amount) with nothing changed; otherwise the account is debited by exactly the amount and never goes below zero; a failed account save writes nothing; a failed withdraw save leaves only the debit written and `done` set on the object |
| WithdrawService.ExecuteWithdraw | app/Service/WithdrawService.php:90-105 | the step-by-step method (check, debit, save account, set done, save withdraw) produces exactly `WithdrawSpec.Execute`'s tables, objects and failure |
| WithdrawSpec.Create | app/Service/WithdrawService.php:37-88 | an immediate withdraw the balance does not cover is refused before any write, and a scheduled one never is; any failure leaves all tables unchanged and sends no mail; with no faults it succeeds iff scheduled or covered; on success the new row, the PIX row (only for method "PIX" with pix data), the debit for an immediate withdraw and the mail are exactly determined |
| WithdrawSpec.Store | app/Service/WithdrawService.php:56-73 | the inserts fail iff the withdraw insert fails or, for a PIX row, the PIX insert fails; on success exactly the new withdraw row and, for method "PIX" with pix data, the PIX row are added, accounts untouched |
| WithdrawService.CreateWithdraw | app/Service/WithdrawService.php:37-88 | the method, with its transaction, inserts, execute, commit, rollback and mail, equals `WithdrawSpec.Create` and leaves no transaction open |
| WithdrawSpec.MailTo | app/Service/WithdrawService.php:183-247 | a mail is built exactly when the withdraw has a PIX row, and it goes to that row's key |
| WithdrawService.SendWithdrawEmail | app/Service/WithdrawService.php:170-181 | sends the schedule confirmation for a scheduled withdraw, else the withdraw confirmation, each only when a PIX row exists |
| WithdrawSpec.UserFriendlyErrorMessage | app/Service/WithdrawService.php:249-256 | the "saldo insuficiente" text iff the failure is InsufficientBalance, the generic text for any other failure |
| WithdrawSpec.Attempt | app/Service/WithdrawService.php:134-136 | `findOrFail` then execute: succeeds iff the account exists, covers the amount and both saves succeed; a missing account fails with the model-not-found error and changes nothing; the object keeps `done = true` exactly when only the withdraw save failed |
| WithdrawSpec.Settle | app/Service/WithdrawService.php:128-168 | success commits debit and `done`, counts `processed` and mails a confirmation; failure rolls back, saves the object with `error = true`, counts `failed`, appends one error entry with the exception message and mails the user-friendly text when the account was found; the sweep aborts iff that error save fails, and then the tables are unchanged |
| WithdrawService.ProcessScheduledWithdraw | app/Service/WithdrawService.php:128-168 | the method, with its own transaction, equals `WithdrawSpec.Settle` and leaves no transaction open |
| WithdrawSpec.Sweep | app/Service/WithdrawService.php:107-126 | one error entry per failure; processed + failed equals the number of selected rows when nothing escaped, and is never more than it |
| WithdrawService.AbortedIsFinal | app/Service/WithdrawService.php:121-123 | once an exception has escaped, the remaining rows are not looked at |
| WithdrawService.ProcessScheduledWithdraws | app/Service/WithdrawService.php:107-126 | selects exactly the due rows and settles them one by one in that order; the result equals `WithdrawSpec.Sweep` over the selection |
| Persistence.Database.SelectDue | app/Service/WithdrawService.php:115-119 | returns each row that is scheduled, not done, not failed and due by `now` exactly once, and no other row |
| Persistence.Database.RollBack | app/Service/WithdrawService.php:84-86 | restores the contents saved at `beginTransaction` and closes the transaction |
| Persistence.Database.SaveWithdraw | app/Service/WithdrawService.php:104 | writes the row when the write succeeds, else changes nothing and reports the error message |
| WithdrawProperties.ExecutePreservesValid | app/Service/WithdrawService.php:90-105 | execute keeps every balance non-negative and the tables consistent |
| WithdrawProperties.CreatePreservesValid | app/Service/WithdrawService.php:37-88 | create keeps every balance non-negative and the tables consistent |
| WithdrawProperties.SettlePreservesValid | app/Service/WithdrawService.php:128-168 | one settlement keeps the tables consistent |
| WithdrawProperties.SweepPreservesValid | app/Service/WithdrawService.php:107-126 | a whole sweep keeps the tables consistent |
| WithdrawProperties.SweepLast | app/Service/WithdrawService.php:115-126 | the last withdraw of a sweep is settled on the tables the earlier ones left, unless the sweep was already aborted |
| WithdrawProperties.SettleFrame | app/Service/WithdrawService.php:128-168 | a settlement writes only the selected withdraw's row and its account's row, keeps all keys, and marks the row done or failed unless it aborted |
| WithdrawProperties.SweepResolves | app/Service/WithdrawService.php:121-123 | after a complete sweep the keys are unchanged and every selected row is done or failed |
| WithdrawProperties.SelectionIsExactlyTheDueRows | app/Service/WithdrawService.php:115-119 | a row is selected iff it is in the table and due |
| WithdrawProperties.SecondSweepFindsNothing | app/Service/WithdrawService.php:115-119 | after a complete sweep, a second sweep at the same time selects nothing |
| WithdrawProperties.SettleDebitsCommitted | app/Service/WithdrawService.php:90-105 | a settlement that did not escape debits only the withdraw's own account, by its amount exactly when it leaves the row done and not failed |
| WithdrawProperties.SweepStepCommits | app/Service/WithdrawService.php:115-126 | the last settlement of a sweep debits its account by exactly what it adds to the committed total and leaves the earlier rows' total alone |
| WithdrawProperties.SweepConservesBalance | app/Service/WithdrawService.php:100-101 | after a complete sweep each account's balance is the old balance minus the amounts of its swept rows now done and not failed; rolled-back settlements cost nothing |
| WithdrawProperties.DoneAndErrorTogether | app/Service/WithdrawService.php:144-145 | a settled row is done, a failed one is failed; the row is both exactly when the account save succeeded, the withdraw save failed and the error save succeeded, and then no money moved |
| WithdrawProperties.SettleKeepsDoneErrorExclusive | app/Service/WithdrawService.php:128-168 | one settlement whose withdraw save succeeds never leaves a row both done and failed |
| WithdrawProperties.SweepKeepsDoneErrorExclusive | app/Service/WithdrawService.php:128-168 | when every withdraw save succeeds, no row is ever both done and failed |
| WithdrawProperties.DeferredBalanceCheck | app/Service/WithdrawService.php:43-44 | a scheduled withdraw larger than the balance is accepted, and its later settlement fails with InsufficientBalance |
| WithdrawProperties.LowercasePixIsNeverMailed | app/Service/WithdrawService.php:67 | with method "pix" no PIX row is written and no mail is sent |
| WithdrawProperties.CreateWritesNoErrorReason | app/Service/WithdrawService.php:56-65 | create never sets `error_reason` |
| WithdrawProperties.SettleWritesNoErrorReason | app/Service/WithdrawService.php:144-145 | one settlement never sets `error_reason` |
| WithdrawProperties.SweepWritesNoErrorReason | app/Service/WithdrawService.php:144-145 | a sweep never sets `error_reason`, even on failure |
| WithdrawScenarios.ImmediateWithdraw | app/Service/WithdrawService.php:37-88 | 150.75 from 1000.00 leaves 849.25, the row is done and a confirmation is mailed |
| WithdrawScenarios.ImmediateWithdrawTooLarge | app/Service/WithdrawService.php:44-50 | 1500.00 from 1000.00 is refused with both amounts and nothing changes |
| WithdrawScenarios.ScheduledWithdraw | app/Service/WithdrawService.php:56-65 | a scheduled withdraw is stored undone with its date, the balance is untouched and a schedule confirmation is mailed |
| WithdrawScenarios.SweepSettles | app/Service/WithdrawService.php:132-140 | a due 100.00 withdraw is settled: 900.00 left, processed 1 |
| WithdrawScenarios.SweepFailsShortBalance | app/Service/WithdrawService.php:141-151 | a due 1500.00 withdraw fails: error flag set, 1000.00 kept, one "Insufficient balance" entry |
| WithdrawScenarios.SweepSettlesThree | app/Service/WithdrawService.php:121-123 | three due 100.00 withdraws all settle, leaving 700.00 |
| InsufficientBalance.New | app/Exception/InsufficientBalanceException.php:11-17 | the getters return the constructor's message, balance and requested amount, and the code is always 400 |
| InsufficientBalance.Defaults | app/Exception/InsufficientBalanceException.php:11-17 | without arguments: "Insufficient balance", zero amounts, code 400 |
| InsufficientBalance.ConstructorIsInjective | app/Exception/InsufficientBalanceException.php:19-27 | the getters give back the arguments, so different arguments make different exceptions |
| AccountController.ServiceData | app/Controller/AccountController.php:33 | the validated fields the service reads: scheduled iff a date was given, amount in cents, method and PIX data passed through |
| AccountController.Respond | app/Controller/AccountController.php:32-48 | 200 with amount, account id, withdraw id and new balance on success; 400 with message, balance and requested for InsufficientBalance; any other failure escapes |
| AccountController.Invoke | app/Controller/AccountController.php:21-49 | the method (validate, find, create, respond) equals the endpoint's specification `Handle` and leaves no transaction open |
| AccountController.ValidatesFirst | app/Controller/AccountController.php:23 | an invalid request raises the validation error with its violations, without lookup, write or mail |
| AccountController.UnknownAccount | app/Controller/AccountController.php:25-30 | a valid request for an unknown account gets 404 "Conta não encontrada" and changes nothing |
| AccountController.OnlySuccessWrites | app/Controller/AccountController.php:32-48 | any reply other than 200 leaves the tables unchanged and sends no mail |
| AccountController.SuccessBody | app/Controller/AccountController.php:35-40 | a 200 reports the new row's id and amount and the balance after the call: debited for an immediate withdraw, unchanged for a scheduled one |
| AccountController.RefusedIff | app/Controller/AccountController.php:42-47 | 400 exactly for a valid immediate withdraw on a known account that the balance does not cover, with the balance and requested amount |
| AccountController.CreateRefusesOnlyShortImmediate | app/Service/WithdrawService.php:44-50 | createWithdraw throws InsufficientBalance only from its own immediate balance check |
| AccountController.NoFaultsNoEscape | app/Controller/AccountController.php:21-49 | with no failing write, a valid request for a known account is always answered with a response |
| AccountController.ScheduledIsNotDueYet | app/Request/WithdrawRequest.php:19 | a withdraw scheduled through the endpoint is not due at the time it was made |
| WithdrawRequest.Check | app/Request/WithdrawRequest.php:11-21 | every reported violation names the attribute and one of its rules |
| WithdrawRequest.CheckSpec | app/Request/WithdrawRequest.php:11-21 | an attribute has no violation iff none of its rules is broken |
| WithdrawRequest.BrokenIsReported | app/Request/WithdrawRequest.php:11-21 | a broken rule is reported whenever no implicit rule precedes it |
| WithdrawRequest.InCheck | app/Request/WithdrawRequest.php:11-21 | each violation belongs to the attribute checked and to its rule list |
| WithdrawRequest.ValidIff | app/Request/WithdrawRequest.php:11-21 | a request is valid iff each of the six attributes is acceptable |
| WithdrawRequest.ViolationIsDeclared | app/Request/WithdrawRequest.php:11-21 | every violation is of a declared attribute, and a `pix` violation is of one of `pix`'s rules |
| WithdrawRequest.MethodAccepted | app/Request/WithdrawRequest.php:14 | `method` is acceptable iff it is the string "PIX" or "pix" |
| WithdrawRequest.MissingMethod | app/Request/WithdrawRequest.php:27 | a missing method gives exactly one violation, reported with "O método é obrigatório." |
| WithdrawRequest.PixAccepted | app/Request/WithdrawRequest.php:15 | when method asks for PIX, `pix` is acceptable iff it is a filled array; otherwise iff it is absent, a blank string or an array |
| WithdrawRequest.PixTypeAccepted | app/Request/WithdrawRequest.php:16 | `pix.type` is acceptable iff it is "email" |
| WithdrawRequest.PixKeyAccepted | app/Request/WithdrawRequest.php:17 | `pix.key` is acceptable iff it is a non-blank string that passes the email check |
| WithdrawRequest.AmountAccepted | app/Request/WithdrawRequest.php:18 | `amount` is acceptable iff it is numeric (exponent forms included) and at least 1 |
| WithdrawRequest.AmountMissing | app/Request/WithdrawRequest.php:18 | a missing or empty amount breaks `required` |
| WithdrawRequest.AmountNotNumeric | app/Request/WithdrawRequest.php:18 | a filled amount that `is_numeric` rejects breaks `numeric` |
| WithdrawRequest.AmountNumeric | app/Request/WithdrawRequest.php:18 | a numeric amount, exponent forms included, passes `required` and `numeric` and breaks `min:1` iff it is below 1 |
| WithdrawRequest.ExponentAmount | app/Request/WithdrawRequest.php:18 | the amount "1e3" is numeric, breaks no amount rule and is 100000 cents |
| WithdrawRequest.ParseScientific | app/Request/WithdrawRequest.php:18 | digits, `e` or `E`, digits read as the mantissa times ten to the exponent |
| WithdrawRequest.ShiftScales | app/Request/WithdrawRequest.php:18 | applying an exponent keeps the value exact: the result is the mantissa times (or divided by) the power of ten |
| WithdrawRequest.NumericIsNotBlank | app/Request/WithdrawRequest.php:18 | a numeric string is never blank |
| WithdrawRequest.ParsePlainDigits | app/Request/WithdrawRequest.php:18 | plain decimal digits read back as that number |
| WithdrawRequest.CentsOfAtLeastOne | app/Request/WithdrawRequest.php:18 | an amount of at least 1 is at least 100 cents |
| WithdrawRequest.ScheduleAccepted | app/Request/WithdrawRequest.php:19 | `schedule` is acceptable iff it is absent, null or blank, or a valid `Y-m-d H:i` date strictly after now and before now plus 7 days |
| WithdrawRequest.MalformedSchedule | app/Request/WithdrawRequest.php:19 | a present, non-null, non-blank schedule that is not a `Y-m-d H:i` date breaks `date_format` |
| WithdrawRequest.StrictParse | app/Request/WithdrawRequest.php:19 | a string is accepted iff it has the `dddd-dd-dd dd:dd` shape and names a real calendar date and time |
| WithdrawRequest.ParseDateText | app/Request/WithdrawRequest.php:19 | a printed date parses back to the same instant |
| WithdrawRequest.CalendarIsContiguous | app/Request/WithdrawRequest.php:19 | the next calendar day is always exactly one day later, across month ends, year ends and leap days |
| WithdrawRequest.Normalize | app/Request/WithdrawRequest.php:11-21 | a valid request has method PIX or pix, type email, an email key, an amount of at least 1, and a schedule that is absent, blank, or within the next 7 days |
| WithdrawRequest.MessageOf | app/Request/WithdrawRequest.php:23-38 | a violation gets its custom text iff "attribute.rule" is registered |
| WithdrawRequest.PastScheduleMessage | app/Request/WithdrawRequest.php:35 | a schedule not after now is reported with "A data de agendamento deve ser no futuro." |
| WithdrawRequest.ScheduleAfterMessage | app/Request/WithdrawRequest.php:35 | the `schedule.after` violation shows the registered "must be in the future" text |
| WithdrawRequest.MissingPixMessage | app/Request/WithdrawRequest.php:15 | a PIX request without `pix` is reported under `required_if` with the framework's default text |
| WithdrawRequest.RequiredIfMessage | app/Request/WithdrawRequest.php:28 | the `pix` `required_if` violation is not covered by the `pix.required` text |
| WithdrawRequest.NoPixRequiredKey | app/Request/WithdrawRequest.php:28 | no declared violation maps to the `pix.required` text |
| WithdrawRequest.PixRequiredTextIsNeverUsed | app/Request/WithdrawRequest.php:28 | no request ever reports "A chave PIX é obrigatória." |
| ProcessCommand.ErrorLines | app/Command/ProcessScheduledWithdrawsCommand.php:44-46 | one `  - id: error` line per error entry, in order |
| ProcessCommand.Reported | app/Command/ProcessScheduledWithdrawsCommand.php:33-49 | the exit status is 1 if any withdraw failed, else 0 |
| ProcessCommand.WriteReport | app/Command/ProcessScheduledWithdrawsCommand.php:33-49 | the line-by-line method writes exactly the report `Reported` describes |
| ProcessCommand.Handle | app/Command/ProcessScheduledWithdrawsCommand.php:26-50 | prints the opening line, runs the sweep and then prints the report and exits with its status, or ends with the escaped exception |
| ProcessCommand.NothingToDo | app/Command/ProcessScheduledWithdrawsCommand.php:33-36 | nothing processed and nothing failed prints only "Sem saques agendados para processar." and exits 0 |
| ProcessCommand.ExitIffFailed | app/Command/ProcessScheduledWithdrawsCommand.php:49 | exit 1 iff failed > 0, exit 0 iff failed = 0 |
| ProcessCommand.ProcessedLineIff | app/Command/ProcessScheduledWithdrawsCommand.php:38-40 | "Processados: n" is printed iff n > 0, and then first |
| ProcessCommand.FailureLines | app/Command/ProcessScheduledWithdrawsCommand.php:42-47 | on failure "Falha: n" is followed by one line per error entry, and these lines end the report |
| ProcessCommand.SucceedsIffAllSettled | app/Command/ProcessScheduledWithdrawsCommand.php:49 | after a complete sweep the command exits 0 iff every selected withdraw was settled, and 1 iff an error entry exists |
| Mail.GetFromEmail | app/Mail/AbstractMail.php:37-40 | the sender is "noreply@hyperfbank.com" |
| Mail.LastIndexOf | app/Mail/AbstractMail.php:50 | the position of the last occurrence, or none when the character does not occur |
| Mail.ShortName | app/Mail/AbstractMail.php:49-50 | the part after the last backslash; without a backslash, the name minus its first character |
| Mail.StripMailSuffix | app/Mail/AbstractMail.php:53 | removes a trailing "Mail" (also before a final newline) and leaves other names unchanged |
| Mail.ToLower | app/Mail/AbstractMail.php:56 | lower-cases each ASCII capital and keeps every other character |
| Mail.GetTemplatePath | app/Mail/AbstractMail.php:46-59 | the path is a `.mjml` file in `/resources/mail/` under the base path, and its file name holds no capital letter |
| Mail.MailClassPath | app/Mail/AbstractMail.php:42-59 | the file of `ns\NameMail` is `/resources/mail/` + the lower-cased, hyphenated `Name` + `.mjml` |
| Mail.ConfirmationPath | app/Mail/AbstractMail.php:42-59 | the documented example: `WithdrawConfirmationMail` renders `/resources/mail/withdraw-confirmation.mjml` |
| Mail.ScheduleConfirmationPath | app/Mail/AbstractMail.php:46-59 | `WithdrawScheduleConfirmationMail` renders `/resources/mail/withdraw-schedule-confirmation.mjml` |
| Mail.ScheduleErrorPath | app/Mail/AbstractMail.php:46-59 | `WithdrawScheduleErrorMail` renders `/resources/mail/withdraw-schedule-error.mjml` |
| Mail.RenderTemplate | app/Mail/AbstractMail.php:64-73 | a missing template file gives "Email template not found: path"; otherwise the MJML text with the variables substituted |
| Mail.QualifiedShortName | app/Mail/AbstractMail.php:50 | a namespaced class name loses exactly its namespace |
| Mail.StripsAppendedMail | app/Mail/AbstractMail.php:53 | appending "Mail" and stripping it gives back the name |
| Mail.OnlyTheSuffixIsStripped | app/Mail/AbstractMail.php:53 | "MailerMail" becomes "Mailer", "Mailing" stays, "Mail" becomes empty |
| Mail.TemplateOfMailClass | app/Mail/AbstractMail.php:46-58 | the template of `ns\NameMail` is the lower-cased hyphenation of Name |
| Mail.HyphenateTwo | app/Mail/AbstractMail.php:56 | a two-word PascalCase name gets one dash, before the second capital |
| Mail.HyphenateThree | app/Mail/AbstractMail.php:56 | a three-word PascalCase name gets a dash before each later capital |
| Mail.ConfirmationTemplate | app/Mail/AbstractMail.php:44 | WithdrawConfirmationMail uses "withdraw-confirmation" |
| Mail.ScheduleConfirmationTemplate | app/Mail/AbstractMail.php:46-58 | WithdrawScheduleConfirmationMail uses "withdraw-schedule-confirmation" |
| Mail.ScheduleErrorTemplate | app/Mail/AbstractMail.php:46-58 | WithdrawScheduleErrorMail uses "withdraw-schedule-error" |
| Mail.TemplateNameIsLowerCase | app/Mail/AbstractMail.php:56 | a template name holds no capital letter |
| Mail.UnqualifiedLosesFirstChar | app/Mail/AbstractMail.php:50 | a class without a namespace gets the template of its name minus the first character |
| Mail.UnqualifiedConfirmation | app/Mail/AbstractMail.php:50 | an unqualified WithdrawConfirmationMail would look for "ithdraw-confirmation" |
| Mail.DashAppend | app/Mail/AbstractMail.php:56 | inserting dashes before capitals distributes over concatenation |
| Mail.DashWithoutUpper | app/Mail/AbstractMail.php:56 | text without capitals gets no dash |
| Mail.UnDashUndoesDash | app/Mail/AbstractMail.php:56 | the dash insertion followed by lower-casing can be undone on letters |
| Mail.PascalUndoesKebab | app/Mail/AbstractMail.php:56 | a PascalCase name is recovered from its kebab-case template name |
| Mjml.EscapeChar | app/Service/MjmlService.php:41 | the five special characters become entities and every other character stays |
| Mjml.HtmlEscape | app/Service/MjmlService.php:41 | escaping never shortens the text |
| Mjml.EscapeAppend | app/Service/MjmlService.php:41 | escaping works character by character, so it distributes over concatenation |
| Mjml.UnescapeEscape | app/Service/MjmlService.php:41 | unescaping an escaped value gives back the value |
| Mjml.EscapedHasNoMarkup | app/Service/MjmlService.php:41 | an escaped value holds no `<`, `>`, `"` or `'` |
| Mjml.EscapePlain | app/Service/MjmlService.php:41 | a value without special characters is inserted unchanged |
| Mjml.ReplaceAbsent | app/Service/MjmlService.php:41 | `str_replace` leaves text without the pattern unchanged |
| Mjml.ReplaceBySelf | app/Service/MjmlService.php:41 | replacing a pattern by itself changes nothing |
| Mjml.ReplaceSkips | app/Service/MjmlService.php:41 | text that cannot start the pattern is copied through |
| Mjml.ReplaceLeading | app/Service/MjmlService.php:41 | a leading occurrence is replaced and the scan continues after it |
| Mjml.Placeholder | app/Service/MjmlService.php:41 | a placeholder is the key in double braces |
| Mjml.Render | app/Service/MjmlService.php:31-48 | a missing file gives "MJML template not found: path"; otherwise the loop substitutes every variable in order, each value HTML-escaped |
| Mjml.UnknownPlaceholdersStay | app/Service/MjmlService.php:40-42 | text holding none of the placeholders is left unchanged |
| Mjml.ValueIsEscaped | app/Service/MjmlService.php:40-42 | a placeholder is replaced by its escaped value and the surrounding text is kept |
| Mjml.ChainedSubstitution | app/Service/MjmlService.php:40-42 | a value that is itself a later placeholder is substituted again by the later variable |
| MailerFactory.Resolve | app/Service/MailerFactory.php:23-28 | each missing setting defaults: smtp, localhost, 25, empty user name, empty password |
| MailerFactory.Dsn | app/Service/MailerFactory.php:30-37 | the DSN in each of the four credential cases: none, user only, password only (`://:pass@`), both |
| MailerFactory.DefaultDsn | app/Service/MailerFactory.php:23-37 | without transport settings the DSN is "smtp://localhost:25" |
| MailerFactory.CredentialsIff | app/Service/MailerFactory.php:33-34 | the DSN holds `@` iff a user name or password is set (truthy), given no `@` in scheme, host or encoded text |
| MailerFactory.AtComesFromPassPart | app/Service/MailerFactory.php:33-34 | the user part never holds `@`; the password part holds one iff a user name or password is set |
| MailerFactory.PortAtTheEnd | app/Service/MailerFactory.php:16 | the DSN ends with `:` and the port in decimal, which reads back as the port |

## Left out

- Eloquent, `Db::beginTransaction`, `commit` and `rollBack` are modelled by a snapshot of the tables. A failing `commit` is not modelled.
- Concurrency is not modelled. Two sweeps or requests never interleave, and row locks are not modelled.
- The mail subclasses' `build`, `getSubject` and `getTemplateVariables` are not modelled. Sending is reduced to the `Notice` a call hands to the mailer. Delivery failures are swallowed by the source and are not modelled either.
- Logging (`$this->logger`) is left out. It changes neither the database nor the results.
- The MJML compiler (`BinaryRenderer`, which runs the `mjml` binary) is left out. `Mjml.Render` returns the text after substitution, before compilation.
- Reading files is left out. `file_exists` and `file_get_contents` become an optional template text in `Mjml.Render`, and a map of files in `Mail.RenderTemplate`.
- The Symfony transport, `Transport::fromDsn` and the wrapper that saves and restores the Swoole hook flags around `send` are not modelled. `urlencode` is a parameter of `MailerFactory.Dsn`.
- The framework's email-address check and PHP's loose date reading are parameters of `WithdrawRequest.Context`. The clock (`date()`, `now`) is the parameter `now`.
- `Str::uuid()` is the parameter `freshId`, required not to be a key yet.
- AccountController.ServiceData: amounts are whole cents, and digits beyond the second decimal are dropped. The source compares and subtracts PHP floats, and the `decimal(15,2)` column rounds. Float rounding and amounts with more than two decimals are therefore not modelled faithfully.
- AccountController.Handle: a blank schedule string is assumed to be refused by the `scheduled_for` column, after the immediate balance check when it is the empty string. The `account_withdraw` migration and the database's SQL mode are not part of this model. A non-strict MySQL would store a zero date instead: an empty string would then be debited as an immediate withdraw, and a white-space-only one stored as a scheduled row that is already due. That outcome is not modelled.
- WithdrawRequest.ParseNumber: numeric strings, exponents included, are read as exact decimals. PHP reads them as floats, so a value beyond float range (`"1e999"` is `INF`) or with more than about 15 significant digits is not rounded the way PHP rounds it.
- InsufficientBalance.New: the balance and requested amount are integer cents, not PHP floats.
- The order in which the query returns due rows is unspecified in the source. `Persistence.Database.SelectDue` picks any order, and the sweep's lemmas hold for every order.
- `Persistence.Database.SelectDue`: `scheduled_for` is compared as an instant in seconds. The MySQL string-to-datetime comparison is not modelled.
- The `AccountWithdraw` and `AccountWithdrawPix` models, routes, the exception handler and the tests are outside this core. Only the columns that the workflow reads or writes are kept.
