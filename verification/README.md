# Verified model of Edda

Edda is a self-hosted git platform. This project models the parts of it where a
mistake would be hard to see in a review, and proves what they promise:

- the **number allocator** issues and pull requests share, a bounded
  compare-and-swap loop (`repo_numbers.dfy`), also inside transactions that roll back
  (`repo_number_tx.dfy`);
- the **job queue**, with pollers that select rows and then claim them one by one,
  workers, and admins (`jobs.dfy`), exactly when its retry budget holds
  (`job_budget.dfy`), what a row says about its past (`job_life.dfy`) and how long a
  failed job rests (`job_backoff.dfy`);
- the **cross-reference scanner** (`crossref.dfy`), which references it finds
  (`crossref_exact.dfy`), and the **HTML linkifier** built on it (`render.dfy`,
  `render_proofs.dfy`), with which tokens it links and where to (`render_links.dfy`);
- **nested transactions** and the **event outbox** that relies on them (`conn.dfy`,
  `events.dfy`);
- **secrets at rest**: the blob format (`secret_box.dfy`), the rotation command
  (`rotation.dfy`), the key-list parser (`config.dfy`), how it judges each item
  (`config_exact.dfy`) and how a parsed list becomes the installed key set
  (`installed_keys.dfy`);
- the **sign-in throttle** (`login_throttle.dfy`), and its answers told from lists of
  failures instead of a table (`login_lists.dfy`);
- the **WebAuthn counter check** and the **RSA key codec** (`webauthn.dfy`; sections
  6.1.1 and 7.2 of W3C Web Authentication Level 2), and the answer to any assertion
  (`passkey_rows.dfy`);
- **password-reset tokens** (`password_reset.dfy`), **scoped labels** (`labels.dfy`)
  and **dump and restore** (`dump.dfy`, `restore.dfy`).

`prelude.dfy`, `text.dfy` and `utf8.dfy` hold shared types, string operations and UTF-8.

A table is a map or a sequence of rows and an SQL statement is one function on it.
A class carries the tables as fields; each of its methods is the Rust method of that
name, proved against those functions. A run is a sequence of events, and the main
results are about all runs. Where a result says what an operation does, it says so
without that operation's own functions: with the strings and numbers written out, or in
terms of the texts, rows and earlier events a reader sees. Clock readings, random tokens and nonces, the order in
which the database returns rows, and what rival clients do in between are parameters.
`dafny verify dfyconfig.toml` checks the project.

## What the code does otherwise than expected

- The header comment of the sign-in throttle says the first five failures are free.
  The code arms the lock at the fifth (`crates/edda-auth/src/login_throttle.rs:92`),
  and so does the model.
- Linkifying is not idempotent. Of `#1#2` the first pass links `#1` only, because the
  `#` behind a digit is no reference; the second pass sees `#2` as a text run of its own
  and links it. A fence marker right behind a reference does it too: alone, the gap starts
  at the beginning of a line, so the marker opens a fence that the first pass did not see,
  the next one closes it, and a reference after that is no longer code.
  `IdempotentExactlyWhenClean` says for which inputs a second pass changes nothing.
- The retry budget of a job holds with one poller, not with two:
  `TwoPollersCanExceedTheBudget`. A poller may claim a row that was retried since it
  selected it, and then counts on from the old `attempts`. A winning claim is safe exactly
  when its snapshot counts at least the runs the job has had; where all claims so far were
  fresh, that is when the snapshot's `attempts` are not below the row's.
- Restoring an archive can write outside the data directory, though the comment at
  `crates/edda-cli/src/main.rs:552-555` means to rule that out: components such as `..` are
  joined to the data directory as they are. Wherever the data directory is, an entry lands
  inside it exactly when its components never climb above their start; archives made by
  `dump` have only such entries.
- A secret that the running server changes during `secrets rotate`, before its row's turn,
  is overwritten with the re-encrypted old value.
- A job whose `max_attempts` is 0 still runs once.

## Model

| member | source | states |
|---|---|---|
| RepoNumberRepo.NumbersAreExactlyOneToCounter | crates/edda-db/src/repo_number_repo.rs:34-115 | under every interleaving of any number of allocations, the numbers returned for a repository are exactly 1 to counter - 1, each to exactly one call |
| RepoNumberRepo.IssueAndPullRequestNumbersDiffer | crates/edda-db/src/issue_repo.rs:65 | on handles that commit each statement, an issue and a pull request of one repository are never handed the same number |
| RepoNumberTx.CommittedRowsNeverShareANumber | crates/edda-db/src/pull_request_repo.rs:151 | allocating inside transactions that commit or roll back in any order, no two committed rows of one repository, issue or pull request, carry the same number |
| RepoNumberTx.CommittedNumbersAreExactlyOneToCounter | crates/edda-app/src/services/issue.rs:56-78 | the numbers on the committed rows of a repository are exactly 1 to counter - 1, without gaps, each on one row |
| RepoNumberTx.HeldNumbersAreReserved | crates/edda-app/src/services/pull_request.rs:147-165 | the number an open transaction holds is past every committed one and held by no other |
| RepoNumberTx.RollbackHandsTheNumberBack | crates/edda-app/src/services/issue.rs:56-78 | rolling back unlocks the counter and makes the number the next one again |
| RepoNumberTx.UndisturbedTransactionsSucceed | crates/edda-app/src/services/issue.rs:56-78 | where nobody else holds the counter row, three statements draw the next number, on a fresh repository too, and a commit moves the counter past it |
| RepoNumberTx.TransactionsGiveUpOnlyWhenContended | crates/edda-db/src/repo_number_repo.rs:34-50 | in every run an open transaction sees its counter row once ensured, and gives up only after ten lost swaps |
| RepoNumberRepo.RepositoriesAreIndependent | crates/edda-db/src/repo_number_repo.rs:52-115 | what the calls on one repository read and return is what they would without every call on another |
| RepoNumberRepo.ContendedWasOvertakenTenTimes | crates/edda-db/src/repo_number_repo.rs:94-115 | a call that gives up was overtaken by at least 10 allocations of others between its first read and its last swap |
| RepoNumberRepo.CallsEnd | crates/edda-db/src/repo_number_repo.rs:42-49 | every call ends within 21 of its own statements, whatever the schedule |
| RepoNumberRepo.FewRivalsMeansSuccess | crates/edda-db/src/repo_number_repo.rs:16 | a call scheduled often enough that sees fewer than 10 allocations of others returns a number |
| RepoNumberRepo.CounterTable.NextNumber | crates/edda-db/src/repo_number_repo.rs:34-50 | with rivals allocating between its statements, the retry loop succeeds at the first round no rival lands in, and gives up only after ten rounds with one |
| JobRepo.RunIsExclusive | crates/edda-db/src/job_repo.rs:83-141 | with any number of pollers, workers, enqueuers and admins interleaving, a row is running if and only if exactly one worker holds it |
| JobRepo.TwoPollersNeverShareAJob | crates/edda-db/src/job_repo.rs:120-141 | two pollers never hold one job at a time, and a held job is running |
| JobRepo.AdminsNeverTouchHeldJobs | crates/edda-db/src/job_repo.rs:312-365 | in every reachable state requeue and delete leave every held row as it is |
| JobRepo.FreshClaimsStayWithinBudget | crates/edda-jobs/src/lib.rs:254-293 | as long as no winning claim is stale, a job runs at most max(max_attempts, 1) times per enqueue or requeue and attempts counts exactly its failed runs |
| JobBudget.GuardedRunsStayWithinBudget | crates/edda-db/src/job_repo.rs:89-141 | with any number of pollers, as long as every claimed snapshot counts at least the runs the job has had, no job runs more than max(max_attempts, 1) times per enqueue or requeue |
| JobBudget.ClaimKeepsBudgetExactlyWhenNotBehind | crates/edda-db/src/job_repo.rs:120-141 | a winning claim leaves the budget safe however the run goes on with fresh claims if and only if its snapshot counts at least the runs so far; otherwise a run that exceeds it is given |
| JobBudget.ClaimKeepsBudgetExactlyWhenCurrent | crates/edda-db/src/job_repo.rs:120-141 | after fresh claims the table tells: the budget survives a claim if and only if the attempts of the snapshot are not below those of the row |
| JobBudget.AttemptsCountFailuresExactly | crates/edda-jobs/src/lib.rs:254-293 | throughout a run attempts counts the failed runs of every job if and only if no job claimed with stale attempts ends in a failure or without a handler |
| JobRepo.ExecutionsStayWithinBudget | crates/edda-jobs/src/lib.rs:197-293 | with one poller the budget always holds |
| JobRepo.TwoPollersCanExceedTheBudget | crates/edda-db/src/job_repo.rs:89-141 | with two pollers it does not: a run in which a job with max_attempts 2 is started three times |
| JobRepo.RetriesEnd | crates/edda-db/src/job_repo.rs:156-211 | apart from a requeue, every change to a job row strictly lowers a nonnegative measure |
| JobRepo.JobTable.ClaimBatch | crates/edda-db/src/job_repo.rs:89-141 | the claim loop over the selected rows, with other clients doing anything to the table before each single claim |
| JobRepo.BatchHoldsWhatWasPending | crates/edda-db/src/job_repo.rs:120-141 | whatever the rivals do, a selected record is returned exactly when its row is pending at its own claim, and a claim changes no other row |
| JobRepo.QuietBatchClaimsAll | crates/edda-db/src/job_repo.rs:95-141 | left alone, a poller claims every row it selected, in order, and changes nothing else |
| JobRepo.JobTable.Settle | crates/edda-jobs/src/lib.rs:254-293 | a finished job is marked by its outcome: done, retried while attempts + 1 < max_attempts, else dead |
| JobLife.RowTellsItsStory | crates/edda-jobs/src/lib.rs:254-293 | in every run a row has succeeded if and only if its last run since it was queued ended well, and is a dead letter if and only if that run had no handler or failed with its record's attempts + 1 >= max_attempts; it runs exactly while held, is gone exactly when deleted, and keeps what it was enqueued with |
| JobLife.RetriesWait | crates/edda-db/src/job_repo.rs:156-188 | a row that failed with budget left carries the error, one attempt more than its worker's record and its retry time, before which no poller selects it; a row not run since it was queued is fresh |
| JobLife.SelectionListsExactly | crates/edda-db/src/job_repo.rs:95-118 | a selection lists at most its limit of rows, each once, pending and due, and all such rows when there is room |
| JobLife.SelectionsAreOldestFirst | crates/edda-db/src/job_repo.rs:97-104 | a selection that lists a row lists every pending row due before it |
| JobBackoff.RetryWaitsWithinTheWindow | crates/edda-domain/src/job.rs:150-158 | whatever the jitter, in range or not, a retry waits between half of min(30 * 2^attempts, 1800) seconds and all of it, and both ends are reached |
| JobBackoff.DelayIsNearest | crates/edda-domain/src/job.rs:156 | the delay is the exact share of the ceiling rounded to the nearest second, a half counting up |
| JobBackoff.RetriesNeverGetEarlier | crates/edda-domain/src/job.rs:150-158 | more failures or more jitter never make a retry earlier |
| JobBackoff.FailedJobsRest | crates/edda-jobs/src/lib.rs:282-290 | in every run a job that failed with budget left is selected by no poller before half the ceiling for its failures has passed |
| CrossRef.ParseNumberLoop | crates/edda-domain/src/crossref.rs:47-63 | the digit loop returns the number and the end of the whole digit run, unless it is empty or ends in a letter |
| CrossRef.ParseQualifiedLoop | crates/edda-domain/src/crossref.rs:65-94 | the loop over name characters finds the owner, name and number of a qualified reference |
| CrossRef.ScanRefsLoop | crates/edda-domain/src/crossref.rs:96-169 | the scanning loop with its code-span and fence modes computes the recursive scan |
| CrossRef.SpansAreOrdered | crates/edda-domain/src/crossref.rs:96-169 | the spans found are in bounds, nonempty, increasing and disjoint |
| CrossRef.SpansReadTheirTokens | crates/edda-domain/src/crossref.rs:191-197 | the text of a span spells the reference it carries |
| CrossRef.GapScannedAfresh | crates/edda-domain/src/crossref.rs:96-169 | what a fresh scan of the text between two spans finds, with neither fence nor reference right behind the first |
| CrossRefExact.ScanFindsExactly | crates/edda-domain/src/crossref.rs:96-169 | the scanner finds exactly the references written as #digits or owner/repo#digits with nothing glued to them, outside fenced blocks, fence lines and code spans, and not inside another it found |
| CrossRefExact.RefAtExactly | crates/edda-domain/src/crossref.rs:47-94 | a reference is read at a position if and only if one is written there: 1 to 18 digits, not all zero, no word going on before or behind |
| Render.LinkifyTextRun | crates/edda-app/src/render.rs:102-120 | the cursor loop writes the gaps unchanged and each reference wrapped in its link |
| Render.LinkifyCrossReferences | crates/edda-app/src/render.rs:73-97 | the scanner with its skip depth computes the recursive transformation, its position growing to the end |
| RenderLinks.LinkedExactlyWhereReferencesStand | crates/edda-app/src/render.rs:73-120 | a token of the HTML is wrapped in a link if and only if it is a reference of the text between two tags and that text stands at skip depth 0 |
| RenderLinks.LinksLeadWhereTheySay | crates/edda-app/src/render.rs:28-37 | every inserted opening tag in front of owner/repo#ds leads to /owner/repo/issues/N, and in front of #ds to /O/R/issues/N of the body's repository, N being ds without leading zeros |
| RenderLinks.TagSkipsExactly | crates/edda-app/src/render.rs:42-68 | a tag <name ...> or </name ...> changes the skip depth if and only if its name is a, code or pre in any case, by one up or down and never below 0 |
| RenderLinks.DecimalOfNumber | crates/edda-app/src/render.rs:31-37 | reading digits as a number and printing it gives the digits without leading zeros |
| RenderProofs.OpenTagRaisesDepth | crates/edda-app/src/render.rs:42-68 | an inserted opening tag is one tag and raises the skip depth by one |
| RenderProofs.CloseTagLowersDepth | crates/edda-app/src/render.rs:42-68 | an inserted closing tag lowers the skip depth by one |
| RenderProofs.ErasingTheLinksRestoresTheInput | crates/edda-app/src/render.rs:73-120 | for every input, erasing exactly the inserted tags gives it back, character for character |
| RenderProofs.LinksGoIntoPlainText | crates/edda-app/src/render.rs:73-97 | nothing is inserted inside a tag or at a skip depth above 0 |
| RenderProofs.IdempotentExactlyWhenClean | crates/edda-app/src/render.rs:73-120 | a second pass changes nothing if and only if no gap between the references of a linkable text run holds a reference when read on its own |
| RenderProofs.OnlyGluedReferencesAreMissed | crates/edda-app/src/render.rs:102-120 | where no fence marker follows a reference, those gaps are exactly the ones that begin with a reference glued to the one before |
| RenderProofs.SecondPassCanLinkMore | crates/edda-app/src/render.rs:102-120 | of the text #1#2 the second pass links what the first left, so linkifying is not idempotent |
| RenderProofs.SecondPassCanLeaveAFence | crates/edda-domain/src/crossref.rs:96-169 | nor is it with a fence marker right behind a reference: alone, the gap opens and closes a fence and then holds a reference the first pass took for code |
| Conn.Connection.RunProgram | crates/edda-db/src/conn.rs:103-161 | after any nesting of statements, transactions and savepoints the table is the effect of exactly the surviving writes, and other connections read only the stages between top-level actions |
| Conn.SurvivorsAreTheCommittedWrites | crates/edda-db/src/conn.rs:103-161 | the surviving writes are, in program order, those whose enclosing blocks all commit |
| Conn.LastWriteDecides | crates/edda-db/src/conn.rs:103-161 | the last surviving write that touches a row decides its content or absence, and a row none touches stays as it was |
| Conn.EachCommitIsPublished | crates/edda-db/src/conn.rs:126-161 | other connections see one new table for each top-level statement and each transaction that commits, and the last of them is the final one |
| Conn.StagesAreWhole | crates/edda-db/src/conn.rs:126-161 | every table another connection reads lies between two top-level actions |
| Conn.EventRowIffStateChange | crates/edda-db/src/event_repo.rs:3-9 | a state change of any kind in the body of the append, or in savepoints inside it, takes effect if and only if the event row is there afterwards and those savepoints commit |
| Conn.EventRowIffSiblingChange | crates/edda-app/src/services/issue.rs:95-118 | side by side in one transaction body, a state change takes effect if and only if the event row is there |
| EventRepo.FannedOutExactlyOnce | crates/edda-jobs/src/dispatcher.rs:91-115 | for any number of dispatchers with crashes anywhere, the jobs of an event are those of the first dispatcher that committed, once, and it is marked processed exactly when there is one |
| EventRepo.RowTellsItsEvent | crates/edda-db/src/event_repo.rs:38-130 | in every run an event keeps the payload and time of its first append, and its processed_at is the time of the first dispatcher that committed its handling, or empty |
| EventRepo.EventTable.Dispatch | crates/edda-jobs/src/dispatcher.rs:94-115 | claiming and fanning out commit or vanish together |
| SecretBox.StampIsRecoveredExactly | crates/edda-auth/src/secret_box.rs:208-220 | parsing a stamp gives back exactly the id, nonce and ciphertext, if and only if the id is 1 to 32 bytes and there is ciphertext |
| SecretBox.DecryptUndoesEncrypt | crates/edda-auth/src/secret_box.rs:137-198 | decrypting an encryption gives the plaintext back, for every plaintext |
| SecretBox.BlobsOpenExactly | crates/edda-auth/src/secret_box.rs:165-220 | a blob made of 1, an id length, an id, 12 nonce bytes and a ciphertext opens under the key of that id and no other; any other blob of 12 bytes or more opens as nonce and ciphertext under the primary; whatever fails is corrupted |
| SecretBox.SealedIsStamped | crates/edda-auth/src/secret_box.rs:137-160 | encrypting gives such a blob with the primary id and what its key seals |
| SecretBox.OtherKeysAreIrrelevant | crates/edda-auth/src/secret_box.rs:165-198 | adding, dropping or reordering other keys never changes what a stamped blob decrypts to |
| SecretBox.Box.Init | crates/edda-auth/src/secret_box.rs:66-87 | the first call, given a primary id and keys, installs that primary and every listed key under its id, usable when the id can be stamped; without either it installs none, and later calls change nothing |
| InstalledKeys.ParsedKeysAreUsable | crates/edda-app/src/config.rs:225-238 | whatever the key variable holds, the keys parsed from it, if any, install a usable key set whose primary is the first entry |
| Utf8Encoding.Utf8IsInjective | crates/edda-auth/src/secret_box.rs:137-160 | different ids have different bytes, so stamps tell them apart |
| Utf8Encoding.Utf8Exactly | crates/edda-auth/src/secret_box.rs:217 | bytes pass for an id if and only if they are the bytes of some string |
| SecretBox.Box.Encrypt | crates/edda-auth/src/secret_box.rs:137-160 | the buffer is filled with tag, id length, id, nonce and ciphertext under the primary key |
| SecretBox.Box.Reencrypt | crates/edda-auth/src/secret_box.rs:200-204 | a blob is opened under its own key and sealed again under the primary |
| SecretRotation.NothingIsLostOnTheWay | crates/edda-cli/src/main.rs:261-284 | with nobody else writing, at every point of the rotation loop, an abort included, each blob that decrypted before decrypts to the same plaintext, and no row is added or lost |
| SecretRotation.WritesSurviveExactlyAfterTheirTurn | crates/edda-cli/src/main.rs:265-283 | of what the server writes to a row during the rotation exactly the writes after its own turn survive; an earlier one is replaced by the re-encrypted old value |
| SecretRotation.OlderKeysCanBeDropped | crates/edda-cli/src/main.rs:261-284 | when it finishes, every blob carries the primary id and decrypts to its plaintext under any key set that has the primary key, whatever else it lacks |
| SecretRotation.SecretTables.RotateSecrets | crates/edda-cli/src/main.rs:261-284 | the loop rewrites rows up to the first blob that does not decrypt, which it reports, or all of them |
| SecretRotation.SecretTables.LoadAll | crates/edda-db/src/secret_rotation.rs:24-49 | the loaded secrets list every row of both tables exactly once |
| Config.Env.ParseSecretKeys | crates/edda-app/src/config.rs:604-650 | the loop yields the keys of the good items in order and appends one error for each of the others |
| Config.EveryItemIsAccountedFor | crates/edda-app/src/config.rs:604-650 | each nonblank item yields exactly one key or one error, and the accepted ids are distinct and 1 to 32 bytes long |
| ConfigExact.OutcomesExactly | crates/edda-app/src/config.rs:615-648 | each item is accepted, or refused as lacking an id, with a bad id length, a repeated id or a bad key, exactly as its text up to and behind the first colon and the ids of earlier items say; a key alone in its list is accepted under default |
| ConfigExact.ItemsAreTheTrimmedParts | crates/edda-app/src/config.rs:608-612 | commas separate items, blank parts are none, the others are trimmed |
| ConfigExact.DecodesExactly | crates/edda-app/src/config.rs:940-951 | a key text decodes to a key if and only if it has 64 bytes, each two of which spell a byte: two hex digits of either case, or a plus sign and one |
| ConfigExact.KeysAndErrorsInOrder | crates/edda-app/src/config.rs:613-650 | keys and errors come in the order of their items |
| Config.ParsingUndoesPrinting | crates/edda-app/src/config.rs:604-650 | printed key lists of any length parse to the same keys in the same order with no error |
| Config.DecodeHex32Loop | crates/edda-app/src/config.rs:940-951 | the loop decodes exactly 64 hex digits into 32 bytes or refuses |
| Config.HexDecodes | crates/edda-app/src/config.rs:940-951 | decoding the lower-case hex of a key gives the key |
| LoginThrottle.GuessingIsSlow | crates/edda-auth/src/login_throttle.rs:62-102 | while an account is never signed in to, its nth failure for n >= 11 is let through at least 945 + 900 (n - 11) seconds after the fifth armed its lock, whatever addresses are used |
| LoginLists.ThrottleRefinesFailureLists | crates/edda-auth/src/login_throttle.rs:62-112 | every sign-in of every run is answered as by two lists of failures, those on the account and those on it from this address since the last sign-in from there: throttled for the longer of their two locks, else decided by the password |
| LoginLists.GuessingFromOnePlaceIsSlow | crates/edda-auth/src/login_throttle.rs:85-112 | on one account from one address, or from anywhere, the nth failure in a row for n >= 11 is let through at least 945 + 900 (n - 11) seconds after the fifth, whatever sign-ins succeed from other addresses |
| LoginThrottle.FailuresAreCountedAndSpaced | crates/edda-db/src/login_attempt_repo.rs:56-101 | in such a run the account-wide counter is the number of failures, its lock is the one the last of them armed, and each waited out the lock before it |
| LoginThrottle.WindowsAddUp | crates/edda-auth/src/login_throttle.rs:85-102 | failure n is let through no earlier than the windows of failures 5 to n - 1 add up to |
| LoginThrottle.OtherAccountsChangeNothing | crates/edda-auth/src/login_throttle.rs:44-112 | the answers and counters of an account are those of the run in which nobody else signed in |
| LoginThrottle.KeysAreInjective | crates/edda-auth/src/login_throttle.rs:44-46 | for addresses without a bar, equal keys mean the same account up to trim and case, and the same address |
| LoginThrottle.WindowIsCappedDoubling | crates/edda-auth/src/login_throttle.rs:92-98 | the clamped shift is min(15 * 2^(n - 5), 900) for every n >= 5 |
| LoginThrottle.FewFailuresNeverLock | crates/edda-auth/src/login_throttle.rs:85-102 | an account without counters is never throttled before its fifth failure |
| LoginThrottle.LocksAreBrief | crates/edda-auth/src/login_throttle.rs:62-80 | every refusal asks for more than 0 and at most 900 seconds |
| LoginThrottle.AttemptTable.SignIn | crates/edda-app/src/auth_routes.rs:377-421 | a sign-in checks, then records its failure or success, on the account-wide and the per-address key |
| Webauthn.ZerosThenIncreasing | crates/edda-auth/src/webauthn.rs:773-781 | in every run the counters set on one credential are zeros followed by strictly increasing positive values |
| Webauthn.NonzeroCountersNeverRepeat | crates/edda-auth/src/webauthn.rs:773-777 | an assertion with a nonzero counter is accepted at most once on a credential |
| Webauthn.AcceptedExactlyWhenRising | crates/edda-auth/src/webauthn.rs:717-781 | an otherwise valid assertion is accepted if and only if its counter continues the counters set on its credential |
| Webauthn.Match | crates/edda-auth/src/webauthn.rs:724-732 | the credential used is the first with that id, and every row before it is readable and another one |
| PasskeyRows.AnswersExactly | crates/edda-auth/src/webauthn.rs:708-784 | the answer to any assertion, error by error in the order of the checks, from the rows in table order; an accepted one changes the counter of the credential and nothing else of it |
| PasskeyRows.CredentialsStayAsRegistered | crates/edda-auth/src/webauthn.rs:773-781 | in every run a credential is in the table from its registration until its user revokes it, with the user, credential id and public key it was registered with |
| Webauthn.CredentialTable.FinishAuthentication | crates/edda-auth/src/webauthn.rs:708-784 | the checks in their order, then the counter of the matched row and nothing else moves |
| Webauthn.SplitUndoesEncode | crates/edda-auth/src/webauthn.rs:376-402 | splitting an encoded RSA key gives its modulus and exponent values back, and fails exactly for a zero exponent |
| Webauthn.EncodeFailsExactlyOnLargeModuli | crates/edda-auth/src/webauthn.rs:376-385 | encoding fails if and only if the modulus is at least 256^65535, so that its length does not fit the prefix |
| Webauthn.EncodingIsCanonical | crates/edda-auth/src/webauthn.rs:372-402 | two keys have one encoding if and only if their numbers are equal |
| PasskeyRows.EncodingLayout | crates/edda-auth/src/webauthn.rs:376-385 | an encoding is the length of the trimmed modulus, high byte first, the modulus and the exponent |
| PasswordReset.TableRefinesLiveGrants | crates/edda-auth/src/password_reset.rs:50-120 | every call of every run is answered as by a set of live links with at most one per user, whatever is pruned when |
| PasswordReset.PruningIsInvisible | crates/edda-db/src/password_reset_token_repo.rs:130-148 | deleting consumed and expired rows at any times changes no answer and no password |
| PasswordReset.LinkWorksExactlyWhen | crates/edda-auth/src/password_reset.rs:100-120 | a link resets the password of a user if and only if a call issued it to them less than an hour before and none since superseded or redeemed it |
| PasswordReset.OnlyResetsSetPasswords | crates/edda-auth/src/password_reset.rs:100-120 | a call answered as a reset leaves the submitted hash as that user's password and every other password as it was; no other call changes one |
| PasswordReset.PasswordIsTheLastOneSubmitted | crates/edda-auth/src/password_reset.rs:100-120 | after every run a user's password hash is the one submitted by the last call that reset it, or the initial one |
| PasswordReset.ConsumeAnswers | crates/edda-auth/src/password_reset.rs:100-120 | what a consume answers, from its arguments and the rows; only a reset has an effect |
| PasswordReset.UsedRowsTellWhen | crates/edda-db/src/password_reset_token_repo.rs:79-125 | a used token carries the time of a call that can end a link of its user |
| PasswordReset.OneUnusedTokenPerUser | crates/edda-db/src/password_reset_token_repo.rs:106-125 | in every reachable table each user has at most one unused token |
| PasswordReset.LinksAreSingleUse | crates/edda-db/src/password_reset_token_repo.rs:79-99 | a link resets a password at most once |
| PasswordReset.RevokedLinksNeverWork | crates/edda-auth/src/totp.rs:103-107 | a link issued before a second factor was activated, or before a newer link, never works afterwards |
| PasswordReset.TokenStore.RequestReset | crates/edda-auth/src/password_reset.rs:50-77 | a request for an enabled account supersedes its links and issues one valid for an hour |
| PasswordReset.TokenStore.ConsumeToken | crates/edda-auth/src/password_reset.rs:100-120 | a consume fails without effect on an empty password, an unusable token or a hashing error, else sets the password and stamps the token |
| LabelRepo.ScopesStayExclusive | crates/edda-db/src/label_repo.rs:120-215 | in every state reached by serial calls an issue carries at most one label per scope |
| LabelRepo.CarriesExactlyWhatIsOn | crates/edda-db/src/label_repo.rs:120-215 | an issue carries exactly the labels put on by some call and since then neither removed nor displaced by another of their scope |
| LabelRepo.LabelTables.ApplyToIssue | crates/edda-db/src/label_repo.rs:126-193 | applying a label removes exactly the other labels of its scope, one by one, and puts it on; a missing label or issue changes nothing |
| LabelRepo.ApplyingDisplacesExactly | crates/edda-db/src/label_repo.rs:126-193 | applying a label takes another off the issue if and only if both names are scope/rest with one scope and slash-free rests; a label without a slash neither displaces nor is displaced |
| LabelRepo.NewLabelsAreAdded | crates/edda-db/src/label_repo.rs:39-80 | a label is added if and only if neither its id nor, in its repository, its name is taken |
| LabelRepo.LabelNamesStayUnique | crates/edda-db/src/label_repo.rs:39-80 | in every run labels of one repository never share a name |
| LabelRepo.ScopeOf | crates/edda-domain/src/issue.rs:60-66 | the scope is what precedes the last slash, and there is none exactly when there is no slash |
| LabelRepo.ScopeIsUnique | crates/edda-domain/src/issue.rs:60-66 | a name made of a scope, a slash and a slash-free rest has that scope |
| LabelRepo.StaleLabelsExactly | crates/edda-domain/src/issue.rs:73-86 | the stale labels are exactly the other applied ones whose names are scope/rest with the scope of the new one, so none for a name without a slash |
| Restore.RestoreUndoesDump | crates/edda-cli/src/main.rs:443-567 | restoring a dump into an empty directory anywhere puts every file of the tree but the live database back, the snapshot at edda.db, nothing else, and leaves all other files alone |
| Restore.RestoreWritesExactlyWhereEntriesLand | crates/edda-cli/src/main.rs:545-561 | of any archive over any file system a restore writes exactly where its entries land, .. resolved: the last content for each place if it succeeds, and every other file stays as it was even if it fails |
| Restore.RestoreAnswers | crates/edda-cli/src/main.rs:525-567 | a restore refuses, touching nothing, if and only if something lies below the target and force is off; it succeeds only with an edda.db entry and reports a missing one |
| Restore.UnexpectedEntriesAreSkipped | crates/edda-cli/src/main.rs:546-556 | an entry that is neither edda.db nor below data changes neither the files nor the answer |
| Restore.ConflictsExactly | crates/edda-cli/src/main.rs:557-560 | an entry fails to unpack if and only if a file stands where a directory on its way must be, or a directory where it lands; else exactly its content and the directories on its way are new |
| Restore.LandsBelowExactlyWhenNotClimbing | crates/edda-cli/src/main.rs:546-556 | an entry lands at or below the data directory, wherever that is, if and only if its components never climb above their start |
| Restore.RestoreStaysInside | crates/edda-cli/src/main.rs:545-561 | of an archive without climbing entries a restore, finished or not, touches nothing outside the data directory but the directories leading to it |
| Restore.ClimbingEntriesEscape | crates/edda-cli/src/main.rs:549-556 | every archive with a climbing entry has a directory name for which each successful restore writes a file outside the directory |
| Restore.AnEntryCanEscape | crates/edda-cli/src/main.rs:549-556 | the archive of edda.db and data/../x is restored without an error and x lands beside the data directory |
| Restore.FileSystem.Restore | crates/edda-cli/src/main.rs:525-567 | a populated target is refused without force, unexpected entries are skipped, the first conflict stops, and a missing database is reported |
| DumpArchive.ArchivedExactlyOnce | crates/edda-cli/src/main.rs:490-520 | the walk archives each file of the tree exactly once, except top-level edda.db and edda.db-*, and nothing else |
| DumpArchive.DumpHoldsTheTree | crates/edda-cli/src/main.rs:443-520 | a dump holds the snapshot once as edda.db and each file of the tree once below data, except those whose first component is edda.db or begins with edda.db-, and nothing else |
| DumpArchive.DirFootprint | crates/edda-cli/src/main.rs:415-434 | the stack loop ends and returns the recursive byte sum and file count |
| DumpArchive.FootprintIsThatOfTheFiles | crates/edda-cli/src/main.rs:415-434 | the footprint is the number of the files listed below a directory and the sum of their lengths |
| DumpArchive.FootprintCountsEachFileOnce | crates/edda-cli/src/main.rs:415-434 | the files so listed are those of the tree, each once |
| DumpArchive.Builder.AppendDataDir | crates/edda-cli/src/main.rs:490-520 | the worklist loop ends and appends exactly the files of the tree, as a multiset |
| DumpArchive.FilesAreNotNested | crates/edda-cli/src/main.rs:490-520 | no file of a tree lies below another, so unpacking never conflicts |

## Left out

- `queue_depths`, `list_*`, `fetch_unprocessed` and the other pure queries: easy members.
- HTTP handlers, audit records, mail texts and SQL per backend: plumbing. MySQL's
  `INSERT IGNORE`, which would swallow a foreign-key failure when a label is applied, is
  taken to fail like the other two backends.
- AES-GCM, password hashing, signatures, CBOR, JSON and `RsaPublicKey::new` are foreign. Of
  the cipher only this is assumed: decryption inverts encryption under the same key and
  nonce, and a ciphertext is not empty.
- Job ids are random UUIDs, and an id once enqueued is never enqueued again; in the code
  nothing but chance sees to that.
- SHA-256 of a token is any function; runs are assumed never to draw one token id or hash
  twice (32 random bytes).
- Widths: `i64`, `u32` and `u64` values do not overflow here; byte values, the `u16` length
  prefix and the one-byte id length are exact.
- Statements are atomic and serial. Isolation anomalies inside one statement, lost
  connections and a failing `COMMIT` are not modelled. A statement that meets the lock of
  another transaction waits; lock time-outs, deadlocks and the snapshot reads of MySQL's
  repeatable-read level, which can only make an allocation give up, are left out.
- A transaction around an allocation draws one number.
- A poller that dies with a claimed job leaves its row `running`; nothing in the modelled
  code takes it back, and the runs here contain no such event.
- The delay before a retry is computed over the reals; the jitter is a parameter, and the events
  of a run carry the retry time that comes of it.
- Offsets in texts count characters; in the source they count bytes. The scanners look for
  ASCII only, so both cut at the same places.
- `dedup` and closing keywords of the cross-reference parser.
- RenderProofs.IdempotentExactlyWhenClean: contexts whose owner or repository name holds a `>`
  are excluded; such names cannot be registered.
- Decrypting unstamped legacy blobs under the primary key is modelled, but no round trip is
  claimed for them: a legacy blob may look stamped.
- SecretBox.DecryptUndoesEncrypt: the primary must be among the keys and its id 1 to 32 bytes
  long, as the server's key-list parser makes sure (`ParsedKeysAreUsable`). The command-line
  parser (`crates/edda-cli/src/main.rs:292-318`) checks neither id lengths nor duplicates.
- LoginThrottle.GuessingIsSlow: `delete_stale` is left out, so counters are never pruned, and
  sign-ins are serial. Lower-casing an email is any function.
- The checks of a ceremony other than credential match and counter are two parameters, one for
  the ceremony token and one for the rest; `last_used_at` and labels are left out.
- Concurrent assertions on one credential, concurrent `consume` of one token and concurrent
  `apply_to_issue`: the code takes no lock for them, so the models are serial.
- One clock reading serves a whole password-reset call; `created_at` influences nothing and the
  account directory is a parameter of each request.
- PasswordReset.TableRefinesLiveGrants: deleting a user, which cascades to the tokens, is left out.
- Label colours, archiving and repository moves; no modelled call renames a label.
- SecretRotation.WritesSurviveExactlyAfterTheirTurn: other clients update rows; rows added or
  deleted during the rotation are left out.
- Symlinks, unreadable directories, empty directories, file metadata, non-UTF-8 names, archive
  entries other than files, and I/O errors in dump and restore. An output file placed inside the
  data directory would be archived while it is written.
