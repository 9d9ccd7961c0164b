# Minimum cash flow settlement: a Dafny model

This project models the settlement engine of a small Qt desktop tool. The
tool settles debts between banks using as few payment transfers as it can.
Each bank accepts a set of payment modes (Cash, Wire, ...). A transfer must
use a mode both banks accept. When a debtor shares no mode with any bank it
could pay, the debt is routed through the bank at position 0, the
"World_Bank" intermediary.

The model covers the non-UI body of `MainWindow::calculateMinCashFlow` and its
three selection helpers:

- **Input normalisation** (`Setup`). Bank-table rows become `Bank`s with
  ordered, de-duplicated mode sets. Debt-table rows become an n-by-n integer
  matrix. The run aborts on the first error: an empty bank table, a named
  bank without modes, fewer than two banks, or a debt row naming an unknown
  bank.
- **Balance aggregation** (`Balances`). Each bank's net balance is inflows
  minus outflows, and the balances sum to zero.
- **Selection helpers** (`Selection`). `getMinIndex`, `getSimpleMaxIndex`
  and `getMaxIndex`. The last matches a debtor with a creditor through the
  ordered intersection of their mode sets (`ModeSets`).
- **Greedy settlement loop** (`Settlement`). One round is the pure function
  `Step`. The loop is the function `Rounds`, which iterates `Step` under the
  loop guard. The method `Settle` runs the loop with the `bal` counter and
  the SAFE ceiling of 1000 rounds, and returns exactly what `Rounds` gives.
- **The whole run** (`Engine`). Validation, then the matrix, then the
  balances, then the loop.

Modelling choices:

- Banks are identified by position. A `Transfer` records payer and payee
  indices where the source stores the banks' names. The two agree whenever
  names are distinct. With duplicate names, the name index resolves to the
  last bank of that name, and `Setup.LastIndexOf` models that explicitly.
- Strings are Dafny `string`s. Modes are ordered by `Text.Less`, a
  lexicographic order on code points in which a proper prefix comes first.
  It agrees with `std::string`'s `operator<` on the UTF-8 text produced by
  `toStdString()`, because UTF-8 preserves code-point order. A mode set is a
  strictly increasing `seq<string>`, so "the first mode" is element 0.
- Integers are unbounded. The C++ sentinels `INT_MAX` and `INT_MIN` become
  "no candidate yet" (index -1).
- Trimming follows `QString::trimmed` with the whitespace set of
  `QChar::isSpace`: TAB to CR, SPACE, NEL, NBSP and the Unicode separators.
  Splitting follows `QString::split(',')`, which keeps empty parts.
- The loop does not require balances that sum to zero, because the code
  does not. Its guarantees are stated for zero-sum balances, which is what
  aggregation always produces. Without a zero sum the code can miscount
  `bal`: when the fallback target is the debtor itself, it counts that bank
  twice.

Points where the code's behaviour is easy to misread, modelled as written:

- The second fallback hop, intermediary to creditor, uses the receiving
  bank's first mode (mainwindow.cpp:245-246), not one of the sender's modes.
- Debt amounts may be negative. The code does not reject them.
- The debtor picked is the smallest nonzero balance (mainwindow.cpp:120-129).
  When balances sum to zero, that bank is always in debt; this is proved in
  `Settlement.DebtorIsNegative`.
- An empty bank table is its own error (mainwindow.cpp:168-171), reported
  before any row is read.

## Model

| member | source | states |
|---|---|---|
| Text.Split | mainwindow.cpp:180 | splitting a mode cell on commas keeps empty parts: one more part than there are commas, no part contains a comma, and joining the parts with commas gives the cell back |
| Text.SplitJoin | mainwindow.cpp:180 | the reverse round trip: joining comma-free parts and splitting again gives the same parts |
| Text.TrimSpec | mainwindow.cpp:181 | trimming keeps the infix after the leading whitespace, cut so that it neither starts nor ends with whitespace; only whitespace is removed, and the result is empty exactly when the cell is all whitespace |
| Text.TrimIdempotent | mainwindow.cpp:175 | a trimmed name or mode trims to itself |
| Text.LessIrreflexive | mainwindow.h:21 | no mode sorts before itself in the std::string order |
| Text.LessTransitive | mainwindow.h:21 | the std::string order is transitive |
| Text.LessTotal | mainwindow.h:21 | any two distinct modes are ordered one way or the other |
| Text.LessAsymmetric | mainwindow.h:21 | two modes are never each before the other |
| ModeSets.Insert | mainwindow.cpp:182 | inserting into a set keeps it strictly increasing, adds exactly the new mode, and grows it only when the mode was absent |
| ModeSets.FromList | mainwindow.cpp:180-183 | the set built from a list of pieces is strictly increasing and holds exactly the pieces |
| ModeSets.Intersect | mainwindow.cpp:151-153 | the ordered merge yields a strictly increasing sequence of exactly the modes both sets hold |
| ModeSets.SortedUnique | mainwindow.h:21 | two strictly increasing mode sequences with the same elements are equal, so a set has one iteration order |
| ModeSets.IntersectSymmetric | mainwindow.cpp:151-153 | the merge gives the same result whichever set comes first |
| ModeSets.FirstCommon | mainwindow.cpp:154-157 | the recorded mode is absent exactly when the sets share nothing; otherwise it is in both sets and is the least common mode |
| ModeSets.FirstCommonSymmetric | mainwindow.cpp:154-157 | the recorded mode does not depend on argument order |
| Setup.ParseModesSpec | mainwindow.cpp:179-183 | a bank's modes are strictly increasing and are exactly the non-empty trimmed comma-separated pieces of its mode cell |
| Setup.CollectBanksStopsAtFirstModeless | mainwindow.cpp:173-187 | the bank loop aborts at the first named row whose mode cell yields no mode and reports that row's trimmed name, whatever the later rows hold |
| Setup.CollectBanksSuccessNoModeless | mainwindow.cpp:173-192 | a bank loop that completes met no named row without modes |
| Setup.CollectBanksKeepsNamedRows | mainwindow.cpp:173-192 | without such a row the loop completes with one bank per named row, in table order, carrying that row's trimmed name and modes, each name non-empty and each mode set non-empty and strictly increasing |
| Setup.BuildBanks | mainwindow.cpp:168-197 | an empty table is its own error; with rows, a table without modeless rows but with fewer than two named rows is rejected as too small; a successful setup has at least two banks, each with a non-empty trimmed name and a non-empty strictly increasing mode set |
| Setup.LastIndexOf | mainwindow.cpp:190 | a name resolves to the last bank carrying it, and to nothing exactly when no bank carries it |
| Setup.BuildMatrix | mainwindow.cpp:199-215 | the debt loop fails exactly when some complete row names an unknown bank, and it reports the first such row's debtor if that is unknown, else its creditor; otherwise it yields an n-by-n matrix whose entry (i, j) is the amount of the last complete row naming i then j |
| Setup.LastRowWins | mainwindow.cpp:214 | a later row for the same pair overwrites an earlier amount rather than adding to it |
| Setup.UnnamedPairIsZero | mainwindow.cpp:200 | a pair no complete row names stays 0 |
| Balances.Aggregate | mainwindow.cpp:217-223 | each bank's balance is Σx G[x][i] − Σx G[i][x], and the balances sum to zero |
| Balances.NetSumsToZero | mainwindow.cpp:217-223 | inflows minus outflows, summed over all banks, is zero for every square matrix |
| Balances.PairUpdate | mainwindow.cpp:247-257 | moving two distinct nonzero balances changes the sum by the two differences, and bal's two increments count exactly the new zeros |
| Balances.ZeroSumSigns | mainwindow.cpp:233-244 | zero-sum balances that are not all zero include a strictly negative one and a strictly positive one |
| Selection.MinIndex | mainwindow.cpp:120-129 | the result is -1 exactly when every balance is 0; otherwise it is the lowest index holding the smallest nonzero balance |
| Selection.SimpleMaxIndex | mainwindow.cpp:131-138 | the result is -1 exactly when every balance is 0; otherwise it is the lowest index holding the largest nonzero balance |
| Selection.MaxIndex | mainwindow.cpp:140-161 | for an out-of-range debtor the result is (-1, ""); otherwise it is -1 exactly when no bank that is owed money shares a mode with the debtor, and else the lowest-index such bank with the largest balance, paired with the least mode the two share |
| Selection.MatchedModeSymmetric | mainwindow.cpp:151-157 | the matched mode is the same when the creditor's set is intersected with the debtor's |
| Settlement.Step | mainwindow.cpp:231-259 | a round breaks out without changing anything exactly when every balance is 0; otherwise it appends at most two in-range transfers whose modes the payer or the payee accepts, a mode both accept unless one end is the intermediary |
| Settlement.DebtorIsNegative | mainwindow.cpp:233-244 | with zero-sum balances that are not all zero, the debtor picked is strictly negative and the fallback target is strictly positive, so the sm < 0 break is unreachable |
| Settlement.DirectRound | mainwindow.cpp:251-258 | when some creditor shares a mode with the debtor, the round emits one transfer: debtor to the lowest-index richest such creditor, for min(debt, credit) > 0, over their least common mode; only those two balances move, and at least one of them reaches 0 |
| Settlement.FallbackRound | mainwindow.cpp:239-250 | when no creditor shares a mode with the debtor, the round emits debtor to bank 0 over the debtor's first mode, then bank 0 to the lowest-index largest positive balance over that bank's first mode, both for the full debt; the debtor ends at 0 |
| Settlement.DirectLedger | mainwindow.cpp:253-255 | a direct transfer of aa from debtor to creditor keeps every bank's balance equal to its initial balance plus what it paid minus what it received |
| Settlement.FallbackLedger | mainwindow.cpp:240-248 | routing the whole debt through bank 0 keeps the ledger balanced, also when bank 0 is the debtor or the target |
| Settlement.RoundPreserves | mainwindow.cpp:239-258 | every round keeps the balances summing to zero, keeps bal equal to the number of zero balances, keeps the ledger balanced (also when bank 0 is debtor or target), emits one or two positive transfers and settles at least one more bank |
| Settlement.Rounds | mainwindow.cpp:231-259 | the loop as a function of its state and the remaining SAFE budget: it never runs more rounds than the budget, runs at least one when `bal` is short of the number of banks and budget remains, and only appends to the plan |
| Settlement.RoundsAccepted | mainwindow.cpp:236-258 | every transfer the loop emits is between two banks and over a mode the payer or the payee accepts, one both accept unless an end is bank 0 |
| Settlement.RoundsTrack | mainwindow.cpp:231-259 | with zero-sum balances the loop keeps the ledger and `bal` exact, settles at least one bank and emits one or two positive transfers per round, and ends with every balance 0 when the budget covers the unsettled banks |
| Settlement.LoopSpec | mainwindow.cpp:225-259 | the loop run from the aggregated balances with the ceiling of 1000 emits accepted transfers; with zero-sum balances the ledger is conserved, every transfer is positive, there is at most one round per initially unsettled bank, the plan is empty exactly when every balance is 0, and every balance ends at 0 when the ceiling allows |
| Settlement.Settle | mainwindow.cpp:225-259 | the imperative loop, with `bal`, SAFE and both breaks, returns exactly the plan, balances and round count of `Rounds` from the starting state with the ceiling as budget, and so every property of `LoopSpec` |
| Engine.CalculateMinCashFlow | mainwindow.cpp:163-259 | bank errors are reported before the debt table is read; a run fails on debts exactly when some complete row names an unknown bank, and then reports the first such row's debtor if that is unknown, else its creditor; a successful run's plan and final balances are those of the greedy rounds on the aggregated balances, and it has zero-sum balances from the matrix, a conserved ledger, positive transfers over accepted modes, an empty plan exactly when all accounts are balanced, and all balances settled within the ceiling |
| Scenarios.FallbackThroughWorldBank | mainwindow.cpp:239-250 | one round on A (Cash) owing B (Wire) 100 pays A to World_Bank 100 over Cash, then World_Bank to B 100 over Wire |
| Scenarios.DirectOverCommonMode | mainwindow.cpp:251-258 | one round on A (Cash, Wire) owing B (Wire) 100 is a single transfer of 100 over Wire |
| Scenarios.DirectRunIsOneTransfer | mainwindow.cpp:231-259 | the whole loop on A (Cash, Wire) owing B (Wire) 100 runs one round and plans the single transfer A to B 100 over Wire |
| Scenarios.FallbackRunIsTwoHops | mainwindow.cpp:231-259 | the whole loop on A (Cash) owing B (Wire) 100 runs one round and plans A to World_Bank then World_Bank to B, 100 each |
| Scenarios.DuplicateDebtRowOverwrites | mainwindow.cpp:214 | the rows (A, B, 100) then (A, B, 50) leave 50 in the matrix |
| Scenarios.SingleBankRejected | mainwindow.cpp:194-197 | a table with one bank is rejected with TooFewBanks |
| Scenarios.BlankModesRejected | mainwindow.cpp:184-187 | a bank whose mode cell holds only blanks and commas is rejected with that bank's trimmed name |

## Left out

- Window construction, the add-row and reset slots, and the table widgets (mainwindow.cpp:20-118, 388-396) are UI plumbing. Cell contents reach the model as `BankRow`/`DebtRow` values, with a missing cell as `None`.
- `drawGraph` (mainwindow.cpp:278-386) is floating-point layout and drawing.
- `saveToFile`/`loadFromFile` (mainwindow.cpp:398-459) are file dialogs and file I/O. The engine never reads the saved text format.
- The HTML log of the plan (mainwindow.cpp:261-273) is presentation. The model states only the fact the log depends on: the plan is empty exactly when every account is balanced.
- `QString::toInt` parsing of amounts (mainwindow.cpp:207) is left out. Amounts arrive as integers, possibly negative.
- C++ `int` overflow is not modelled, because integers are unbounded. With the `INT_MAX`/`INT_MIN` sentinels (mainwindow.cpp:121, 132, 145), C++ would never select a balance exactly equal to the sentinel; the model has no such exception.
- The scratch buffer sized from the largest mode count, and the unused `input` parameter of `getMaxIndex` (mainwindow.cpp:143-150), are implementation details of `std::set_intersection`.
- The model keeps balances in a sequence beside the banks rather than in a `netAmount` field of each `Bank` (mainwindow.h:20). The loop reads modes from the copy `net` and names from `BB`; both hold the same modes.
- The UTF-16 to UTF-8 conversion of names and modes is not modelled. Strings are sequences of code points, and the conversion preserves both their equality and their order.
- The iteration ceiling is kept as the constant 1000. A run that hits it returns its partial plan, as the code does. `Settlement.Settle` also returns the number of rounds so that a caller can tell a ceiling stop apart.
