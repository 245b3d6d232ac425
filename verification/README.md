# Console business demos, modelled in Dafny

This project models the logic core of a collection of small C# console
applications:

- a **warehouse** with an id-keyed inventory store of electronic and grocery items and
  a generic JSON-backed **inventory logger**;
- a generic **list repository** and a **health system** of patients, prescriptions
  and a per-patient prescription map;
- a **student result processor** that parses `id, name, score` lines, fails fast on
  malformed ones, and grades students into letter bands;
- **accounts** (a base account and a savings account that refuses overdrafts) and the
  **finance application**'s withdrawal flow and input screens.

Everything is modelled with immutable datatypes and pure functions:

- An operation that changes state returns the new state.
- A C# exception becomes an error value of a `Result`.
- A `null` argument that the source checks becomes `None`.
- Console input is a sequence of lines, where `None` is end of input.
- The file system is a map from path to contents.
- The clock, the JSON serializer and date parsing are parameters.

Money (`decimal`) is counted in whole minor units, so the initial savings balance
of 1000 is `100000`.

The modules:

- `Wrappers`: `Option`, `Result`, `Date`.
- `Text`: whitespace, trimming, splitting, `int` formatting and `int.TryParse`.
- `Lists`: order-keeping filtering.
- `Repository`: `Repository<T>`.
- `InventoryItems`, `InventoryRepository`, `Warehouse`, `InventoryLogger`.
- `HealthRecords`: `Patient` and `Prescription`.
- `HealthSystem`: `HealthSystemApp`.
- `Students`, `StudentResults`.
- `Accounts`, `FinanceApp`.

## Model

| member | source | states |
|---|---|---|
| InventoryItems.NewElectronicItem | WarehouseSystem/ElectronicItem.cs:43-50 | the item keeps the id, name, quantity, brand and warranty it was given, with no validation |
| InventoryItems.NewGroceryItem | WarehouseSystem/GroceryItem.cs:37-43 | the item keeps the id, name, quantity and expiry date it was given |
| InventoryItems.WithQuantity | WarehouseSystem/IInventoryItem.cs:6-22 | only `Quantity` is settable: the new item differs from the old in its quantity alone |
| InventoryRepository.AddItem | InventoryRepository.cs:31-41 | a `null` item fails with `NullItem` (the `ArgumentNullException`); a non-null one fails with `DuplicateItem(id)` exactly when its id is stored; otherwise adds one key, maps it to the item, keeps every other entry, raises `Count` by one and keeps entries keyed by their own id |
| InventoryRepository.GetItemById | InventoryRepository.cs:49-55 | succeeds exactly when the id is stored and returns the stored item; otherwise `ItemNotFound(id)` |
| InventoryRepository.RemoveItem | InventoryRepository.cs:62-68 | succeeds exactly when the id is stored, then drops that key alone and lowers `Count` by one; otherwise `ItemNotFound(id)` |
| InventoryRepository.UpdateQuantity | InventoryRepository.cs:86-95 | a negative quantity is refused with `InvalidQuantity` before existence is looked at; a missing id gives `ItemNotFound`; otherwise only that item's quantity changes |
| InventoryRepository.GetAllItems | InventoryRepository.cs:74-77 | lists, position by position, the item stored under each id of the given enumeration order: every stored item once (`Count` of them, no two with the same id) and nothing that is not stored |
| InventoryRepository.AddThenGet | InventoryRepository.cs:32-55 | an item added under a fresh id is found again by that id |
| InventoryRepository.RemoveThenGet | InventoryRepository.cs:49-68 | after a removal the id is no longer found |
| InventoryRepository.AddThenRemove | InventoryRepository.cs:32-68 | adding a fresh item and removing it again gives back the original store |
| InventoryRepository.UpdateThenGet | InventoryRepository.cs:49-95 | after a successful update, lookup returns the new quantity |
| InventoryRepository.OperationsPreserveNonNegative | InventoryRepository.cs:32-95 | update and remove keep every stored quantity non-negative; add keeps it so exactly when the added item's quantity is non-negative |
| InventoryRepository.NegativeQuantityAdmitted | InventoryRepository.cs:32-41 | an electronic item built with a negative quantity is still accepted by `AddItem`: non-negativity is not a store invariant |
| InventoryRepository.CountMatchesContains | InventoryRepository.cs:100-110 | `Count` equals the number of ids for which `ContainsItem` holds |
| Warehouse.Wrap32 | WareHouseManager.cs:109 | the unchecked 32-bit sum: always in int range, equal to the exact sum when that fits, and congruent to it modulo 2^32 |
| Warehouse.IncreaseStock | WareHouseManager.cs:104-125 | a missing id reports `ItemNotFound` and changes nothing; otherwise the wrapped sum is stored when it is non-negative and reported as `InvalidQuantity` when negative; other items are untouched |
| Warehouse.RemoveItemById | WareHouseManager.cs:133-149 | reports nothing exactly when the id was stored, then drops that item alone; otherwise reports `ItemNotFound` and changes nothing |
| Warehouse.IncreaseStockInRange | WareHouseManager.cs:104-125 | without overflow, a non-negative sum becomes the new quantity and a negative one leaves the store unchanged |
| Warehouse.HelpersPreserveNonNegative | WareHouseManager.cs:104-149 | both helpers keep a store with no negative quantity free of negative quantities |
| Warehouse.OverflowIsReportedAsInvalidQuantity | WareHouseManager.cs:108-120 | adding 1 to a quantity of `int.MaxValue` wraps to `int.MinValue`, which is reported as an invalid quantity and leaves the store unchanged |
| InventoryLogger.NewLogger | InventoryLogger.cs:11-15 | a new logger has an empty log and remembers its path |
| InventoryLogger.Add | InventoryLogger.cs:17-20 | appends the item at the end and keeps the earlier entries and the path |
| InventoryLogger.GetAllReturnsAddOrder | InventoryLogger.cs:17-25 | `GetAll` after adding items one by one returns the earlier log followed by the items in the order added, duplicates included |
| InventoryLogger.SaveToFile | InventoryLogger.cs:27-41 | reports success exactly when the file opens and serialization succeeds, and then the file holds the JSON; an open failure changes no file; a serializer failure leaves the file empty; no other file changes |
| InventoryLogger.LoadFromFile | InventoryLogger.cs:43-61 | a missing file keeps the log; a decoded list replaces it; JSON `null`, a read failure or malformed content empty it; the path is kept |
| InventoryLogger.SaveThenLoad | InventoryLogger.cs:27-61 | with a codec that reads back what it writes, saving and then loading gives back the log that was saved |
| InventoryLogger.FailedSaveLosesLog | InventoryLogger.cs:31-40 | a serializer failure after the file was opened leaves an empty file, so the next load yields an empty log |
| InventoryLogger.LoadIsIdempotent | InventoryLogger.cs:43-61 | loading again from unchanged files gives the same log |
| Repository.FirstIndex | Repository.cs:55 | the position of the first element that satisfies the predicate, or none exactly when no element does |
| Repository.Add | Repository.cs:33-36 | a non-null item is appended and `Count` grows by one; `null` is ignored |
| Repository.GetAll | Repository.cs:45 | returns a copy equal to the stored list |
| Repository.GetById | Repository.cs:53-56 | returns none exactly when no element matches, otherwise the first matching element |
| Repository.Remove | Repository.cs:63-71 | with no match, reports false and keeps the list; otherwise deletes one element, the first one `Equals` to the first match, lowering `Count` by one |
| Repository.RemoveSucceedsIffMatch | Repository.cs:63-71 | with a reflexive `Equals`, removal reports true exactly when some element matches |
| Repository.RemoveDeletesFirstMatch | Repository.cs:65-70 | when nothing before the first match equals it, the first match itself is the element deleted |
| Repository.AddThenRemove | Repository.cs:33-71 | adding an item no other element matches or equals and removing by its predicate gives back the original list |
| Repository.RemoveByUniqueKey | Repository.cs:63-71 | with distinct keys and key-based `Equals`, removal by key deletes exactly the element with that key |
| Lists.Filter | HealthSystemApp.cs:523 | `Where(...).ToList()`: the result holds only elements of the list that satisfy the predicate, holds every element that does, and is never longer |
| Lists.FilterMultiplicity | HealthSystemApp.cs:523 | each kept element occurs in the result exactly as often as in the list, and a dropped one never |
| Lists.FilterKeepsAll | HealthSystemApp.cs:523 | a list whose every element satisfies the predicate comes back unchanged |
| Lists.FilterKeepsNone | HealthSystemApp.cs:523 | a list no element of which satisfies the predicate comes back empty |
| Lists.FilterConcat | HealthSystemApp.cs:523 | filtering distributes over concatenation |
| Lists.FilterFilter | HealthSystemApp.cs:523 | two filters in a row are one filter by the conjunction |
| Lists.FilterDistinctKeys | HealthSystemApp.cs:523 | filtering keeps keys distinct |
| Lists.FilterCut | Repository.cs:68 | when exactly one position fails the predicate, filtering is removing that position |
| HealthRecords.NewPatient | Patient.cs:37-43 | `null` name or gender throws `ArgumentNullException` naming the parameter (name first); otherwise the fields are stored as given |
| HealthRecords.NewPrescription | HealthSystem/Prescription.cs:37-43 | a `null` medication name throws `ArgumentNullException`; otherwise the fields are stored as given |
| HealthRecords.PatientEqualityById | Patient.cs:59-71 | patients are equal exactly when their ids are; the relation is an equivalence, and equal patients hash alike |
| HealthRecords.PrescriptionEqualityById | HealthSystem/Prescription.cs:59-71 | prescriptions are equal exactly when their ids are; the relation is an equivalence, and equal prescriptions hash alike |
| HealthSystem.BuildPrescriptionMap | HealthSystemApp.cs:610-624 | the keys are exactly the patient ids that occur, and each entry lists that patient's prescriptions in repository order |
| HealthSystem.LookupAfterBuild | HealthSystemApp.cs:676-683 | a lookup in a freshly built map returns exactly the patient's prescriptions, and the empty list for a patient with no entry |
| HealthSystem.EntryCountsSumToTotal | HealthSystemApp.cs:697 | the lengths of the map's entries add up to the number of prescriptions, in any order of visiting the keys |
| HealthSystem.AddNewPatient | HealthSystemApp.cs:176-250 | the checks in order, each with its own report: unreadable id, taken id, empty name, age unreadable or outside 0..150, empty gender; the patient is appended exactly when all pass, and every refusal leaves the state unchanged |
| HealthSystem.AddNewPrescription | HealthSystemApp.cs:255-349 | the refusals in order, each with its own report: unreadable id, taken id, unreadable patient id, unknown patient, empty medication, unparsable date; the prescription is appended, and the map rebuilt, exactly when the id is free, the patient exists, the medication is non-empty and the date is empty or parses |
| HealthSystem.Cascade | HealthSystemApp.cs:522-529 | the cascade loop removes at most one prescription per snapshot entry and counts each removal |
| HealthSystem.RemovePatient | HealthSystemApp.cs:488-550 | removes exactly when the id parses, the patient exists and the answer is y or yes; then one patient fewer and the map rebuilt; otherwise nothing changes and the report says which: unreadable id, missing patient or cancelled |
| HealthSystem.RemovePrescription | HealthSystemApp.cs:555-605 | removes exactly when the id parses, is used and is confirmed; patients are untouched, there is one prescription fewer and the map is rebuilt; otherwise the report says which: unreadable id, missing prescription or cancelled |
| HealthSystem.RemovePatientCascades | HealthSystemApp.cs:518-533 | with unique ids, removing a patient removes that patient alone, exactly that patient's prescriptions, and counts all of them |
| HealthSystem.CascadeRemovesTargets | HealthSystemApp.cs:522-529 | with unique ids, the cascade over any set of stored targets removes exactly those prescriptions and counts each |
| HealthSystem.RemovePrescriptionRemovesOnlyMatch | HealthSystemApp.cs:581-583 | with unique ids, removing a prescription removes that prescription alone |
| HealthSystem.InitialState | HealthSystemApp.cs:112-143 | the seeded state has 3 patients and 5 prescriptions and is consistent |
| HealthSystem.SeedPatients | HealthSystemApp.cs:112-143 | the seed patients have ids 1, 2 and 3 |
| HealthSystem.SeedPrescriptions | HealthSystemApp.cs:112-143 | the seed prescriptions have ids 101 to 105, each for a patient 1 to 3 |
| HealthSystem.AddNewPatientKeepsConsistent | HealthSystemApp.cs:176-250 | adding a patient keeps ids unique, leaves no prescription without a patient, and keeps the map equal to a rebuild |
| HealthSystem.AddNewPrescriptionKeepsConsistent | HealthSystemApp.cs:255-349 | adding a prescription keeps the state consistent |
| HealthSystem.RemovePatientKeepsConsistent | HealthSystemApp.cs:488-550 | removing a patient with its prescriptions keeps the state consistent: no orphaned prescription |
| HealthSystem.RemovePrescriptionKeepsConsistent | HealthSystemApp.cs:555-605 | removing a prescription keeps the state consistent |
| HealthSystem.RemoveDeletesEarlierPatientWithSameId | Repository.cs:63-71 | because equality is by id only, `Remove` by name deletes an earlier patient sharing the id instead of the match |
| HealthSystem.CascadeWithRepeatedIdsLeavesOrphan | HealthSystemApp.cs:522-529 | were prescription ids to repeat, the cascade would delete another patient's prescription and keep the removed patient's |
| Students.NewStudent | Student.cs:29-34 | stores the id, name and score unchecked |
| Students.GetGrade | Student.cs:40-51 | A for 80..100, B for 70..79, C for 60..69, D for 50..59, F for every score below 50, negatives included, and Invalid only above 100, each as an if-and-only-if |
| Students.ToString | Student.cs:57-60 | starts with the full name and ends with `, Grade = ` and the grade letter |
| Students.GradeMonotone | Student.cs:40-51 | up to 100, a higher score never gets a lower grade, and never Invalid |
| Students.PassingIsAThroughD | Student.cs:40-51 | up to 100, a score of at least 50 is exactly a grade from A to D |
| Students.GradeLettersDistinct | Student.cs:40-51 | different grades have different letters |
| StudentResults.Fields | GradingSystem/StudentResultProcessor.cs:40-44 | at least one field, one per comma-separated piece; each field is its piece less a blank prefix and suffix, holds no comma, and neither starts nor ends with white space |
| StudentResults.ParseLine | GradingSystem/StudentResultProcessor.cs:37-94 | every error carries the line number and the raw line |
| StudentResults.ParseLineChecks | GradingSystem/StudentResultProcessor.cs:47-94 | the checks in order: field count, first empty field in column order, id, score; an id or score that does not parse gives `InvalidScoreFormat` naming that column and its text; the line is accepted exactly when the id and score parse, and yields those values with the trimmed name; the score range never refuses a line |
| StudentResults.ReadNonBlank | GradingSystem/StudentResultProcessor.cs:24-112 | the loop over the lines for any per-line parser: blank lines are skipped, lines are numbered from 1, and the first failing line's error is the result |
| StudentResults.ReadStudentsFromFile | GradingSystem/StudentResultProcessor.cs:21-113 | succeeds exactly when every non-blank line parses; then one student per non-blank line, in order; otherwise the error is that of the first bad non-blank line |
| StudentResults.ReportCounts | GradingSystem/StudentResultProcessor.cs:146-173 | the A-F counts of the distribution plus the Invalid count make up every student, and the pass count (score 50 or more) is the A+B+C+D count plus the Invalid count, since every score above 100 passes too |
| StudentResults.ShownBandsCoverAll | GradingSystem/StudentResultProcessor.cs:146-156 | the five bands shown account for every student exactly when no score is above 100 |
| StudentResults.FormatThenParse | GradingSystem/StudentResultProcessor.cs:37-94 | an `id,name,score` line written from a student with 32-bit id and score and a trimmed comma-free name parses back to the same student |
| StudentResults.FieldsOfThree | GradingSystem/StudentResultProcessor.cs:40-44 | three trimmed comma-free texts joined by commas split back into the same three fields |
| Text.ToLower | HealthSystemApp.cs:514 | keeps the length and changes exactly the upper-case ASCII letters, each to the letter 32 code points on, its lower case |
| Text.Trim | GradingSystem/StudentResultProcessor.cs:43 | removes `char.IsWhiteSpace` characters (the Unicode white space set) from both ends only: the result is the text less a blank prefix and a blank suffix, and starts and ends with non-whitespace |
| Text.TrimUnique | GradingSystem/StudentResultProcessor.cs:43 | exactly one part of a text is the text less blank padding with no white space at its ends, so the contract of `Trim` determines it |
| Text.TrimAddsNothing | GradingSystem/StudentResultProcessor.cs:43 | trimming only removes characters: a character absent from the text is absent from the result |
| Text.TrimStart | GradingSystem/StudentResultProcessor.cs:43 | the result is a suffix and what it drops is blank |
| Text.TrimEnd | GradingSystem/StudentResultProcessor.cs:43 | the result is a prefix and what it drops is blank |
| Text.BlankIffTrimEmpty | GradingSystem/StudentResultProcessor.cs:34-35 | a line is blank exactly when trimming empties it |
| Text.TrimNoOp | GradingSystem/StudentResultProcessor.cs:43 | trimming a text with no whitespace at either end changes nothing |
| Text.Split | GradingSystem/StudentResultProcessor.cs:40 | at least one field, no field contains the separator, and joining the fields gives back the line |
| Text.SplitJoin | GradingSystem/StudentResultProcessor.cs:40 | splitting separator-free fields joined by the separator gives back the fields |
| Text.ParseSignedDigits | GradingSystem/StudentResultProcessor.cs:72-83 | the number itself: accepted exactly when it is an optional `+` or `-` and ASCII digits whose signed value is in 32-bit range, and then that value |
| Text.ParseInt32 | GradingSystem/StudentResultProcessor.cs:72-83 | `int.TryParse`: any value is in 32-bit range; a text starting with anything but number white space, a digit or a sign is refused; a text with no number white space at either end and no trailing NUL is read as the number itself |
| Text.ZeroAndPlusIgnored | GradingSystem/StudentResultProcessor.cs:72-83 | a leading zero or a leading `+` before digits changes neither acceptance nor value |
| Text.SurroundingNumberSpaceIgnored | HealthSystemApp.cs:183 | space and U+0009 to U+000D around the number, and NULs after it, are skipped |
| Text.NoBreakSpaceRefused | HealthSystemApp.cs:183 | a no-break space is removed by `Trim` but makes `int.TryParse` refuse the text |
| Text.FormatParse | GradingSystem/StudentResultProcessor.cs:72-83 | every 32-bit integer's decimal text parses back to it |
| Text.TrimmedLine | HealthSystemApp.cs:204 | `Console.ReadLine()?.Trim() ?? ""`: end of input gives the empty text; a line gives itself less blank padding, with no white space at either end, and is empty exactly when the line is blank |
| Text.TryParseLine | HealthSystemApp.cs:183 | `int.TryParse(Console.ReadLine())`: end of input fails; a line gives exactly what `int.TryParse` gives for the untrimmed line, a 32-bit value when it succeeds |
| Text.Utf16Length | FinanceApp.cs:923 | `string.Length` counts UTF-16 code units: between one and two per character |
| Text.Utf16LengthOfBmp | FinanceApp.cs:923 | the length is the character count exactly when no character lies beyond the Basic Multilingual Plane |
| Accounts.NewAccount | Account.cs:16-20 | stores the account number and the initial balance unchecked |
| Accounts.Deposit | Account.cs:37-47 | a non-positive amount changes nothing; otherwise the balance grows by the amount; the number never changes |
| Accounts.ApplyTransaction | SavingsAccount.cs:23-35 | the base account always deducts; a savings account refuses an amount above the balance and deducts otherwise; the number never changes |
| Accounts.SavingsStaysNonNegative | SavingsAccount.cs:23-35 | a savings account that starts at or above zero stays there under any deposits and transactions, and keeps its number and kind |
| Accounts.DepositThenApplyRestores | Account.cs:27-47 | a positive deposit followed by a transaction of the same amount restores the account |
| Accounts.SavingsFullWithdrawal | SavingsAccount.cs:25-32 | withdrawing exactly the balance leaves zero; one unit more is refused |
| Accounts.PlainAccountCanOverdraw | Account.cs:27-31 | the base account has no guard: a transaction on an empty account makes it negative |
| FinanceApp.PhoneDecision | FinanceApp.cs:771-790 | cancels on an empty or `cancel` line, accepts exactly 10 digits, asks again otherwise |
| FinanceApp.BankAccountDecision | FinanceApp.cs:860-879 | cancels on an empty or `cancel` line, accepts at least 8 digits, asks again otherwise |
| FinanceApp.HolderNameDecision | FinanceApp.cs:885-904 | cancels on an empty or `cancel` line, accepts at least 2 letters or spaces, asks again otherwise |
| FinanceApp.WalletDecision | FinanceApp.cs:911-930 | cancels on an empty or `cancel` line, accepts 26 to 62 UTF-16 code units, asks again otherwise |
| FinanceApp.CategoryDecision | FinanceApp.cs:441-455 | never cancels; accepts a non-blank trimmed line of at most 50 UTF-16 code units |
| FinanceApp.AstralCharactersCountTwice | FinanceApp.cs:923 | 20 characters beyond the Basic Multilingual Plane are 40 code units, a valid wallet length, and 26 of them are 52, over the category limit |
| FinanceApp.AllAstral | FinanceApp.cs:923 | a text made only of such characters is twice as long in code units as in characters |
| FinanceApp.DepositAmountDecision | FinanceApp.cs:270-291 | cancels on 0, accepts a positive amount, asks again otherwise |
| FinanceApp.EmptyResultMeansCancel | FinanceApp.cs:771-930 | an empty returned text from a cancellable screen means exactly that the user cancelled |
| FinanceApp.CancelWordIsNotAName | FinanceApp.cs:890-900 | the word `cancel` in any case, though letters only, cancels the name screen instead of being accepted |
| FinanceApp.AskTakesFirstDecision | FinanceApp.cs:441-455 | a prompt loop ends with the first line that is not re-prompted, and runs out of input exactly when every line is re-prompted |
| FinanceApp.CancellableScreensEnd | FinanceApp.cs:771-930 | the cancellable screens always end, because end of input counts as cancel |
| FinanceApp.CategoryScreenHasNoWayOut | FinanceApp.cs:441-455 | the category screen can never be cancelled and runs out of input unless some line is valid |
| FinanceApp.InitialLedger | FinanceApp.cs:28-37 | a savings account with balance 1000.00, transaction id 1 and no transactions |
| FinanceApp.ProcessWithdrawal | FinanceApp.cs:100-166 | cancelling either menu or an unsuccessful transfer changes nothing; otherwise a transaction with the current id is applied to the savings account, recorded, and the id advances |
| FinanceApp.InitialLedgerIsSound | FinanceApp.cs:28-37 | the starting ledger is sound: savings, non-negative, no recorded ids |
| FinanceApp.ProcessWithdrawalKeepsSound | FinanceApp.cs:100-166 | withdrawals keep the balance non-negative and the recorded ids strictly increasing and below the next id |
| FinanceApp.RefusedWithdrawalIsRecorded | FinanceApp.cs:149-163 | a withdrawal above the balance leaves the balance alone but is still recorded and consumes an id |

## Left out

- The menus and main loops (`FinanceApp.Run`, the warehouse, grading and health
  `Run` methods, `Program`) are left out. They only dispatch to the operations above
  and print.
- Console output, `ReadKey` pauses and the report's text layout are left out,
  because they carry no logic.
- The transaction processors only print, so they are left out. Applying the
  transaction to the account is modelled.
- The withdrawal account menu and the transaction type menu are parameters
  (`accountType`, `processorType`).
- The transfer dialogues (`ProcessMobileMoneyTransfer`, `ProcessBankTransfer`,
  `ProcessCryptoTransfer`) are a `Transfer` parameter. Their amount and category
  prompts (`GetTransactionAmount`, `GetTransactionCategory`) are left out, beyond the
  custom category screen.
- `ProcessDeposit`'s method choice and confirmation dialogue are left out. Only the
  amount screen and `Deposit` are modelled.
- `DateTime.Now` is a `Date` parameter, and `DateTime.TryParse` is a `parseDate`
  parameter. Culture-dependent parsing cannot be stated.
- `decimal.TryParse` is a parsed `Option<int>` parameter, and decimal fractions are
  whole minor units.
- `int.TryParse` is modelled for the invariant culture: an ASCII `+` or `-` sign.
  Culture-specific sign symbols are left out.
- Digits, letters and case mapping are ASCII. `char.IsLetter`, `char.IsDigit` and
  `ToLower` also accept or map non-ASCII characters in .NET, so the phone, bank and
  name screens here refuse some lines the source would accept. `int.TryParse` itself
  reads ASCII digits only, so the number parsing is not affected.
- The average and percentage figures of the report and summary are left out, because
  they are floating point. The counts are modelled.
- JSON serialization is a pair of caller-given functions. Only their round-trip
  property is assumed, where a lemma requires it.
- A write failure after the file was opened in `SaveToFile` is not distinguished
  from a serializer failure.
- A missing input file in `ReadStudentsFromFile` is left out, because opening files is
  I/O. The wrapping of unexpected exceptions is left out too, because the modelled
  parser raises none.
- `WriteReportToFile` is file output. Only its counts are modelled.
- `GetHashCode` is modelled as the id. Only "equal implies same hash" is stated.
- The finance transaction id is an unbounded integer. The source's `int` would wrap
  after 2^31 withdrawals.
- InventoryRepository.GetAllItems: the dictionary's enumeration order is a parameter
  (`order`), which .NET leaves unspecified.
- The inventory items are values. In the source, `GetItemById` and `GetAllItems` hand
  out references to the stored objects, and the public `Quantity` setter lets a
  caller change a stored item without going through `UpdateQuantity`. That aliasing
  is left out.
- HealthSystem.EntryCountsSumToTotal: the average prescriptions per patient that the
  summary prints is not modelled, only the total it is computed from.
- HealthSystem.RemovePatientCascades: it is stated for stores with unique ids, which
  `AddNewPatient` and `AddNewPrescription` maintain.
  `CascadeWithRepeatedIdsLeavesOrphan` shows what happens without them.
- StudentResults.ParseLine: the exception messages are not modelled. The line number,
  the failing field and the raw line are kept.

Where the comments and the code disagree, the model follows the code:

- `GetGrade`'s documentation says scores outside 0..100 are invalid, but the code
  grades every score below 50, negatives included, as F.
- The custom category screen offers no way to cancel and keeps asking at end of
  input.
- `IncreaseStock` adds in unchecked 32-bit arithmetic, so an overflow is reported as
  an invalid negative quantity.
- The warehouse's error names are those of its exception classes.
