# A model of the CRM backend's query, paging, retry and idempotency logic

The project models, in Dafny, the parts of the backend whose correctness depends on several
functions at once: the segment compiler, keyset pagination, the idempotency-key protocol, the
retry engine with the webhook task life cycle, and six smaller cores (fixed-window rate limiter,
batched rate resolution, delivery statuses, cursors, UUIDv7, nearest-rank percentile).
`dafny verify dfyconfig.toml` checks everything.

## How it is built

**SQL.** `Sql` is a first-order model of the statements the repositories build: a row maps columns
to values, a missing column reads as NULL, and a condition is evaluated in three-valued logic,
membership subqueries and joins included. A row is selected when its condition is TRUE. `Like` is a
recursive LIKE matcher; whether a backslash escapes is a property of the database (it does on MySQL,
it does not on SQLite). `Sorting` says why the answer of `ORDER BY` is determined: a sorted
arrangement of rows without ties is unique. `Sql.LessMeans` and `Sql.ThreeValues` say what the order
on values and the three truth values are.

**Paging.** `Keyset` states what any keyset-paged list owes: the clause added for a cursor selects
exactly the rows that stand after the cursor row. From that it proves, for any page sizes, that the
pages seen so far are a prefix of the one sorted list, that `has_more` is false exactly at the end,
and that a traversal ends. `Contacts`, `Tasks` and `SegmentPages` prove that their own predicates
(three differently built ones) meet the condition.

**Segments.** `SegmentCompiler` holds the validator and the compiler with their error paths;
`SegmentMeaning` gives a direct two-valued reading of one rule and proves the compiled condition
equivalent to it. The reading uses none of the compiler's tables or coercions: `LiteralExact`,
`FieldNamedExact` and `OperatorsExact` tie those to it. `SegmentGroups` lifts this to whole
segments and proves the grouping laws.

**Protocols.** `Idempotency` is a transition system of many calls on one key: every store step
(SET NX, GET, complete, release, expiry, lost replies) is an event and a history is any possible
sequence of events. `IdempotencyStore` is the code itself over a store of many keys, tied to those
steps. `Retry` and `TaskLifecycle` run a task against any choice of failure classes, backoff draws
and failing stores.

## What turned out not to hold

* **Search text is not escaped.** `%`, `_` (and `\` where it escapes) in a search text act as LIKE
  metacharacters. `Like.FoldedPatternExact`, `Contacts.SearchExact` and `Tasks.TaskSearchExact` show
  that a search is faithful exactly when the text is plain. A backslash at the very end of an
  `ends_with` text is harmless.
* **Three kinds of accepted segment rules do not select what they say.** A search with a
  metacharacter; a contact-field `nin` list with a null, which leaves nobody; an attribute compared
  with null, where `eq` misses the contacts without a value row and `ne` selects them.
  `SegmentMeaning.RuleMeaningExact` proves that these are all: an accepted rule that compiles is
  faithful in every database if and only if it is none of them, and `SegmentGroups.SegmentMeaningExact`
  says the same of the segments made of such rules.
* **An accepted rule may fail to compile**, when a list stands where one value is compared, or an
  ordering has a null that the statement builder refuses. `SegmentCompiler.RuleProgress` proves that these are the only ways.
* **A NULL cursor value.** `ContactRepository.paginate` writes `column < value` even when the cursor
  says that the value is NULL. Whether the statement builder refuses an ordering comparison with None
  is a parameter here (`refusesNull`). If it does not, the traversal is right for every table. If it
  does, `Contacts.RefusingTraversal` gives the exact condition, for any page sizes: the contacts that
  have a value must fill every page but the last.
* **The broker's own retry limit.** `smart_retry` calls `retry` with `max_retries=None`, which leaves
  the limit to the broker's task setting, and `register_task` sets that to the queue's `max_attempts`
  (5 for both webhook lanes), below the 10 executions of the throttle class. The limit is a parameter.
  `TaskLifecycle.ParkedOnlyWhenDeadLetterFails`: a retryable event bypasses the lane's own dead-letter
  store, in some run, exactly when the limit is below 9.
* **Two places, or none.** `TaskLifecycle.FinalAccount` accounts for every environment, with stores
  that may fail before or after taking effect and work that may fail after its commit. An event ends
  in two places exactly when the dead-letter store took it, failed to say so and the hook parked it as
  well, or when its work was committed and the last attempt nevertheless dead-lettered it or raised to
  a hook that parks (`TaskLifecycle.TwoPlaces`); it is in none exactly as `TaskLifecycle.LostOnlyByHook`
  says. When every effect happens exactly if its call succeeds and the hook works, one case of these
  remains: `process_inbound_message` queues the attachment outside its `try`, and if that fails the
  message is applied and parked (`TaskLifecycle.OnePlace`).
* **A key that vanishes between the two steps of `begin`.** A GET that finds nothing answers
  "proceed". `Idempotency.BlindExact`: a history has no such call if and only if every read, at its
  moment, finds the key. `Idempotency.ProceedsBounded` bounds every history: proceeds are at most one
  more than the erasures and the calls that an erasure overtook between their two steps, and
  `Idempotency.OneErasureManyProceed` reaches the bound for any number of calls. With `begin`
  uninterrupted every read finds the key, and the bound is one more than the number of erasures.

## Model

| member | source | states |
|---|---|---|
| Like.PatternExact | backend/app/crm/segment_compiler.py:235-237 | `%s%`, `s%` and `%s` match exactly the texts that hold s as substring, prefix or suffix, for every text, if and only if s has no metacharacter |
| Like.FoldsCapitals | backend/app/crm/segment_compiler.py:279-284 | Case folding takes each of the 26 capitals to its small letter and leaves every other character |
| Like.FoldedPatternExact | backend/app/crm/segment_compiler.py:279-284 | The same if-and-only-if for the case-insensitive form, on folded texts |
| Like.FoldedMisfire | backend/app/crm/segment_compiler.py:279-284 | For every search text with a metacharacter, a text that is accepted although the search text is not in it |
| Like.PercentFindsAnything | backend/app/crm/segment_compiler.py:279-280 | A search for a percent sign accepts every text, although "5" does not hold one |
| Sorting.SortedIsUnique | backend/app/repositories/contact.py:220-229 | Two sorted arrangements of the same rows without ties are equal, so ORDER BY with the id as tiebreak determines the answer |
| Keyset.RestAfterCursor | backend/app/repositories/contact.py:193-229 | The table filtered by the list's clauses and the cursor clause, sorted, is the list from the position after the cursor on |
| Keyset.PageIsSlice | backend/app/repositories/contact.py:225-229 | Fetching limit + 1 rows and truncating shows the next limit rows of the list, and has_more says whether anything follows |
| Keyset.TraversalSoFar | backend/app/repositories/contact.py:193-229 | At every moment, with any page sizes, the pages seen are a prefix of the list, and has_more is false exactly when it is all of it |
| Keyset.FinishedTraversal | backend/app/repositories/contact.py:193-229 | A finished traversal shows the sorted, filtered table: no row lost, none repeated |
| Keyset.TraversalEnds | backend/app/repositories/contact.py:193-229 | A traversal has at most as many pages as there are listed rows, and at least one |
| Keyset.TraversalCompletes | backend/app/repositories/contact.py:193-229 | From every table and for every limit of at least 1, following the cursors reaches a last page |
| Keyset.FixedPageCount | backend/app/repositories/contact.py:225-229 | A finished traversal in pages of one size takes ceil(n / limit) pages, and one for the empty list |
| Keyset.AllCursors | backend/app/repositories/contact.py:225-229 | With any page sizes the cursor of each page stands in the list at the sum of the sizes asked for before it |
| Blanks.StripExact | backend/app/repositories/contact.py:46-46 | Stripping gives the one text that has no blank at either end and is left without the blanks around it |
| Contacts.ParseSortExact | backend/app/repositories/contact.py:45-51 | A sort is accepted with a given column and direction exactly when, the blanks around it aside, it is the text of that sort; no sort means newest first |
| Contacts.ParseSortRoundTrip | backend/app/repositories/contact.py:45-51 | The text of every sort, with any blanks around it, asks for that sort |
| Contacts.BuildFilters | backend/app/repositories/contact.py:140-176 | The clause list grown under branches is the one the filter lemmas speak of |
| Contacts.SearchExact | backend/app/repositories/contact.py:154-164 | The four-column search finds the text in exactly the rows that hold it if and only if it has no metacharacter, in a database of any kind |
| Contacts.FiltersMean | backend/app/repositories/contact.py:140-176 | Under three-valued logic all clauses hold exactly of the live rows of the organisation that meet every given filter, a NULL cell failing its filter |
| Contacts.BlanksAroundSearch | backend/app/repositories/contact.py:155-164 | Blanks around the text searched for make no difference to what any search selects |
| Contacts.Paginate | backend/app/repositories/contact.py:178-229 | Unknown sorts are refused, a cursor the builder refuses is refused, and any other call returns the page of the list after the cursor row |
| Contacts.OrderMeans | backend/app/repositories/contact.py:20-25 | Each sort and direction orders contacts by its own cell, a missing value after every present one, ties by id in the same direction |
| Contacts.ClauseExact | backend/app/repositories/contact.py:203-219 | The nullable keyset clause is TRUE exactly of the rows later in (is NULL, value, id) order, across the value-to-NULL boundary, in both directions |
| Contacts.ContactsPageable | backend/app/repositories/contact.py:193-229 | Every contact list, with every filter, sort and direction, meets the keyset condition |
| Contacts.ContactTraversal | backend/app/repositories/contact.py:178-253 | Following the cursors shows a growing prefix of one list and at the end all of it; the list has the wanted rows and no other, in the order of the asked cell with NULLs last, as many as `count` says |
| Contacts.RefusingTraversal | backend/app/repositories/contact.py:203-219 | With a builder that refuses None and pages of any sizes, no page of a traversal was refused if and only if the rows with a value fill every page but the last |
| Contacts.RefusingFixedPages | backend/app/repositories/contact.py:203-219 | For one page size: the rows with a value fill every full page before the last row |
| Contacts.UnnamedPairRefused | backend/app/repositories/contact.py:203-219 | The smallest failure: two contacts without a name, listed by name one at a time |
| Tasks.TaskFiltersMean | backend/app/repositories/task.py:79-120 | All clauses hold exactly of the live tasks of the organisation that meet every given filter |
| Tasks.TaskSearchExact | backend/app/repositories/task.py:117-119 | The title-or-description search finds the text in exactly the tasks that hold it if and only if it has no metacharacter, whether or not LIKE minds case |
| Tasks.KeysetAfter | backend/app/repositories/task.py:190-201 | The predicate rebuilt in a loop from the last key to the first is the nested clause, None values included; a refused None or lists of different lengths fail, the None first |
| Tasks.AfterExact | backend/app/repositories/task.py:190-201 | For any number of keys in any directions the clause is TRUE exactly of the rows strictly later in (keys, id) order |
| Tasks.OrderMeans | backend/app/repositories/task.py:33-51 | Each sort name and direction orders tasks by its own cell, ties by ascending id; "priority" goes by low, medium, high, critical, an unknown one as low, then by due date |
| Tasks.CursorValuesAreKeys | backend/app/repositories/task.py:203-212 | The values taken for the cursor are the values of the keys the list is sorted by, the priority rank included |
| Tasks.ListPage | backend/app/repositories/task.py:122-188 | A call with no cursor, or with the cursor of any task, returns the page of the list after it; a cursor of the wrong length fails |
| Tasks.TasksPageable | backend/app/repositories/task.py:162-188 | Every task list, with every filter, sort and direction, meets the keyset condition |
| Tasks.TaskIsListed | backend/app/repositories/task.py:79-188 | A task is in the list exactly when it is wanted, and completed if the sort is `completed_at` |
| Tasks.TaskTraversal | backend/app/repositories/task.py:162-212 | Iterating with the cursor values shows a growing prefix of the list, in the order that the sort name and the direction ask for on the cells, and at the end all of it |
| AttributeTypes.ValueColumnExact | backend/app/crm/attribute_types.py:21-27 | Each column of the value table holds exactly the data types it is for |
| AttributeTypes.CoercedExact | backend/app/crm/attribute_types.py:36-73 | Coercion gives NULL for None and otherwise the one value that the literal stands for and the attribute may hold, and fails exactly when there is none |
| SegmentCompiler.CheckEach | backend/app/crm/segment_compiler.py:138-146 | The loop over a list literal succeeds exactly when every item can be coerced, and otherwise fails with the first item that cannot |
| SegmentCompiler.ValidateLiteral | backend/app/crm/segment_compiler.py:122-149 | The literal checks succeed exactly for the shapes the operator asks for |
| SegmentCompiler.LiteralExact | backend/app/crm/segment_compiler.py:111-119 | A literal is read as the one value it stands for (itself, or the time or number its text tells) and refused exactly when there is none; the validator also lets lists pass for text and datetime fields |
| SegmentCompiler.FieldNamedExact | backend/app/crm/segment_compiler.py:57-108 | Which column and type each field key of each source names, column by column |
| SegmentCompiler.OperatorsExact | backend/app/crm/segment_compiler.py:77-91 | Which types of field and of attribute each operator can be used on, operator by operator |
| SegmentCompiler.AcceptedExact | backend/app/crm/segment_compiler.py:122-192 | The rules accepted by the tables are those with a named field, an operator of its type and a literal of the asked shape that can be read |
| SegmentCompiler.ValidateRule | backend/app/crm/segment_compiler.py:152-192 | Validation succeeds exactly for the acceptable rules of each source, and every failure is the validation error |
| SegmentCompiler.FieldProgress | backend/app/crm/segment_compiler.py:251-291 | An accepted column rule compiles exactly when it compares no list and no refused null; nothing else can go wrong |
| SegmentCompiler.AttributeProgress | backend/app/crm/segment_compiler.py:209-248 | An accepted attribute rule compiles exactly when it orders by no refused null; nothing else can go wrong |
| SegmentCompiler.RuleProgress | backend/app/crm/segment_compiler.py:122-291 | Of an accepted rule of any source every lookup, unpacking, dispatch and second coercion succeeds, and it compiles if and only if it compares no list and no refused null |
| SegmentCompiler.PlainLiteralsCompile | backend/app/crm/segment_compiler.py:122-291 | Accepted rules with non-null literals, and a list only where the operator takes one, compile |
| SegmentMeaning.Membership | backend/app/crm/segment_compiler.py:198-217 | With no NULL among the selected contact ids, IN over a subquery and its negation are two-valued complements |
| SegmentMeaning.FieldMeaning | backend/app/crm/segment_compiler.py:262-291 | A column rule that compiles is TRUE exactly of the contacts it describes, null literals included: `ne` and `nin` drop NULLs, `eq null` asks for no value, a null in a `nin` list leaves nobody |
| SegmentMeaning.FieldListMeaning | backend/app/crm/segment_compiler.py:268-277 | A column list rule means what it says, except that a null literal in a `nin` list leaves nobody |
| SegmentMeaning.NullListMisfires | backend/app/crm/segment_compiler.py:275-277 | For every `nin` list with a null, a contact whose value is not listed and who is not selected |
| SegmentMeaning.NullComparisonMisfires | backend/app/crm/segment_compiler.py:209-248 | An attribute compared with null selects the opposite of what it says of every contact without a value row |
| SegmentMeaning.AttributeMembership | backend/app/crm/segment_compiler.py:209-217 | The subquery tests the contact's one value of the attribute, and its negation holds also of a contact without one |
| SegmentMeaning.AttributeMeaning | backend/app/crm/segment_compiler.py:209-248 | An attribute rule that compiles and is no comparison with null is TRUE exactly of the contacts it describes; `ne`, `nin` and `exists: false` include contacts without a value |
| SegmentMeaning.TagMembership | backend/app/crm/segment_compiler.py:195-206 | The joined subquery finds a contact exactly when one of the names is on it as a live tag of the organisation |
| SegmentMeaning.TagMeaning | backend/app/crm/segment_compiler.py:195-206 | A tag rule is TRUE exactly of the contacts it describes, whatever literals its list holds; a null names no tag |
| SegmentMeaning.RuleMeaning | backend/app/crm/segment_compiler.py:195-291 | For every database: an accepted rule that compiles and selects as said is TRUE of a contact if and only if the rule describes it |
| SegmentMeaning.RuleMeaningExact | backend/app/crm/segment_compiler.py:195-291 | An accepted rule that compiles selects exactly its contacts in every database if and only if it has no metacharacter in a search text, no null in a column's `nin` list and no attribute compared with null |
| SegmentGroups.CollectGroups | backend/app/crm/segment_compiler.py:302-313 | The dictionary filled by the loop holds, per group index, the conditions of its rules in order, or the loop stops at the first failing rule |
| SegmentGroups.CompileRules | backend/app/crm/segment_compiler.py:294-319 | The two loops return the combined condition that the laws below are about, None for no rules, and the first failure otherwise |
| SegmentGroups.CompiledGroups | backend/app/crm/segment_compiler.py:302-319 | The compiled condition is TRUE exactly when, per match type, some group (or every rule) has all its rules' conditions TRUE |
| SegmentGroups.CompileProgress | backend/app/crm/segment_compiler.py:294-319 | A list of accepted rules compiles exactly when each of its rules does, to None exactly when it is empty |
| SegmentGroups.CompilationPreservesMeaning | backend/app/crm/segment_compiler.py:195-319 | For every database and every list of accepted rules that compile and select as said, a contact makes the compiled condition TRUE if and only if it matches the segment |
| SegmentGroups.SegmentMeaningExact | backend/app/crm/segment_compiler.py:195-319 | Every segment made of given accepted rules that compile means what it says, in every database, if and only if each of the rules selects as said |
| SegmentGroups.Complement | backend/app/crm/segment_compiler.py:195-248 | Attribute `ne`/`eq`, `nin`/`in`, `exists`, and tag `nin`/`in` are exact complements: no contact is in both or in neither |
| SegmentGroups.ColumnPairDropsNull | backend/app/crm/segment_compiler.py:270-277 | On a contact column the pair is disjoint and leaves out exactly the contacts with no value, or nobody if it compares with null |
| SegmentGroups.PermutedRules | backend/app/crm/segment_compiler.py:302-319 | Rules in another order, or repeated, compile to the same meaning |
| SegmentGroups.RegroupedRules | backend/app/crm/segment_compiler.py:302-319 | Under `all`, the group indices make no difference |
| SegmentGroups.AddedGroup | backend/app/crm/segment_compiler.py:302-319 | Under `any`, a further group never shrinks the match set of a non-empty list |
| SegmentGroups.AddedRule | backend/app/crm/segment_compiler.py:302-319 | Under `any`, a further rule in an existing group never grows it |
| SegmentPages.PaginateMatching | backend/app/repositories/segment.py:64-89 | A call returns the page of the matching list after the cursor's row |
| SegmentPages.AfterExact | backend/app/repositories/segment.py:73-82 | The clause is TRUE exactly of the contacts later in (created_at, id) descending order |
| SegmentPages.PreviewAgreesWithCount | backend/app/repositories/segment.py:43-89 | Page sizes of a full traversal sum to `count_matching`, of a partial one to no more; every row shown satisfies the condition and the organisation and deletion clauses, newest first and then by falling id |
| SegmentPages.SegmentPreview | backend/app/repositories/segment.py:43-89 | Compiling a segment and traversing its matches shows exactly the live contacts of the organisation that match the segment |
| Idempotency.ProceedsAreOwners | backend/app/core/idempotency.py:67-92 | In every history the number of calls told to proceed equals the claims plus the blind reads |
| Idempotency.ClaimsBounded | backend/app/core/idempotency.py:75-79 | In every history successful claims number at most the erasures plus one if the key is present |
| Idempotency.AtMostOneProceeds | backend/app/core/idempotency.py:67-92 | In every interleaving without expiry or release, at most one call is told to proceed |
| Idempotency.EntryExact | backend/app/core/idempotency.py:67-109 | In every history the key is missing exactly when whatever was written has been removed since, and holds a response exactly when it is the last one recorded and not removed |
| Idempotency.AnswersExact | backend/app/core/idempotency.py:67-92 | Every answer of `begin` from the history alone: a claim proceeds when nothing is on the key; a read replays the last response, is a 409 while the claim has none, and proceeds when nothing is there |
| Idempotency.CompletedIsReplayed | backend/app/core/idempotency.py:86-101 | Without erasure, once a completion reaches the store every later GET replays exactly its response |
| Idempotency.RecordedResponseIsReplayed | backend/app/core/idempotency.py:86-101 | Once a response is recorded, and without erasure, every later GET replays exactly that response |
| Idempotency.AnswersStand | backend/app/core/idempotency.py:67-92 | What a call was answered is not changed by anything that happens later |
| Idempotency.StoreErrorNeverProceeds | backend/app/core/idempotency.py:75-84 | In every history a call that met a store error is answered "unavailable" and is never among those told to proceed |
| Idempotency.UninterruptedNeverBlind | backend/app/core/idempotency.py:80-88 | If each read directly follows its own refused claim, no read finds the key missing |
| Idempotency.AtomicProceedsBounded | backend/app/core/idempotency.py:67-109 | With `begin` uninterrupted, proceeds are at most one more than erasures |
| Idempotency.BlindExact | backend/app/core/idempotency.py:80-88 | In every history the calls told to proceed are exactly those that made the claim if and only if every read, at its moment, finds the key |
| Idempotency.ProceedsBounded | backend/app/core/idempotency.py:67-109 | In every history whatever, proceeds are at most the erasures, plus one while the key is present, plus the calls that an erasure overtook between their two steps |
| Idempotency.BlindNeedsErasure | backend/app/core/idempotency.py:86-88 | A call that proceeds because GET found nothing saw an erasure between its own two steps |
| Idempotency.OneErasureManyProceed | backend/app/core/idempotency.py:75-88 | For every n, a history with one erasure that overtakes n calls and in which n + 1 calls proceed: the bound is reached |
| IdempotencyStore.Store.Begin | backend/app/core/idempotency.py:67-92 | From the entry under the prefixed key: its answer in each case, with either store call failing before or after its effect, and the entry afterwards; it takes the protocol's steps, and no other key changes |
| IdempotencyStore.Store.ReadBack | backend/app/core/idempotency.py:80-92 | The second step of `begin`, whatever happened since the first: proceed on a missing key, 409 on a claim, the stored response on a completion, 503 on a lost call |
| IdempotencyStore.Store.Complete | backend/app/core/idempotency.py:95-101 | The response is what the key holds unless the call never arrived; the protocol's complete step, on this key only |
| IdempotencyStore.Store.Release | backend/app/core/idempotency.py:104-109 | The key is gone unless the call never arrived; the protocol's release step, on this key only |
| Retry.RetriesExact | backend/app/queue/retry.py:50-98 | After which attempts another follows, class by class |
| Retry.CeilingsExact | backend/app/queue/retry.py:50-113 | The longest delay after each attempt that is retried, class by class, in seconds |
| Retry.CeilingDoubles | backend/app/queue/retry.py:100-113 | From each class's base the ceiling doubles with every attempt until it stays at the cap |
| Retry.CeilingMonotone | backend/app/queue/retry.py:100-113 | For one class the backoff ceiling never falls with the attempt and never exceeds the class cap |
| Retry.FirstOpinionDecides | backend/app/queue/retry.py:80-88 | The first registered map with an opinion decides; with none, timeouts and connection errors are transient and the rest unknown |
| Retry.ErrorMaps.Register | backend/app/queue/retry.py:68-72 | A new name is added last; a known one is replaced where it stands |
| Retry.ErrorMaps.Clear | backend/app/queue/retry.py:75-77 | No map remains |
| Retry.ErrorMaps.Classify | backend/app/queue/retry.py:80-88 | The loop returns the class that the first opinion decides |
| Retry.ExecutionsBounded | backend/app/queue/retry.py:50-98 | For every sequence of failure classes a task runs at most 10 times, and at most limit + 1 times under a broker limit |
| Retry.WaitedBounded | backend/app/queue/retry.py:50-113 | For every sequence of failure classes and draws the backoffs sum to at most 1150 seconds |
| Retry.BoundsAttained | backend/app/queue/retry.py:50-113 | One sequence of failures reaches both bounds |
| TaskLifecycle.Worker.SmartRetry | backend/app/queue/base_task.py:202-219 | Requeued with the drawn countdown exactly when the class still retries and the broker's limit is not reached; otherwise the error is raised |
| TaskLifecycle.Worker.Attempt | backend/app/channels/tasks.py:107-191 | One attempt with its hooks: effects, retry or dead-letter decision, failure hook |
| TaskLifecycle.Worker.RunToEnd | backend/app/channels/tasks.py:107-191 | The broker's loop ends and leaves the state that the life-cycle laws are about |
| TaskLifecycle.FollowsEngine | backend/app/queue/base_task.py:202-219 | A task's executions and waiting time are those of the retry engine for its failure classes |
| TaskLifecycle.LifeBounded | backend/app/queue/base_task.py:202-219 | Every life has 1 to 10 executions, waits at most 1150 seconds and is not left in the retry state |
| TaskLifecycle.FinalAccount | backend/app/channels/tasks.py:107-191 | For every environment: applied exactly when some attempt committed; dead-lettered once exactly when the last attempt is not retried and the store took it; parked once exactly when the last attempt raises to a hook that parks; the number of executions; and the job's final status |
| TaskLifecycle.FailuresThenApplied | backend/app/channels/tasks.py:107-191 | With no broker limit, failures within each class's number of retries are made good by the next attempt that applies: one execution more than failures, applied, nothing stored |
| TaskLifecycle.FailingIsDeadLettered | backend/app/channels/tasks.py:107-191 | With no broker limit, a class that keeps failing is dead-lettered once after 10, 5, 4 or 3 executions, and a terminal or unknown one after the first |
| TaskLifecycle.ExactlyOnePlace | backend/app/channels/tasks.py:107-191 | The exact condition, for every environment, under which an event ends in one place |
| TaskLifecycle.TwoPlaces | backend/app/channels/tasks.py:107-191 | The exact condition under which an event ends in two places or more: stored twice, or committed and nevertheless dead-lettered or parked |
| TaskLifecycle.BothStores | backend/app/channels/tasks.py:107-191 | An event is in both failure stores exactly when the dead-letter store took it, failed to say so and the hook parked it; it is in each at most once |
| TaskLifecycle.OnePlace | backend/app/channels/tasks.py:107-191 | With effects that happen exactly when their call succeeds, an event ends applied, dead-lettered or parked: in exactly one, unless an attachment could not be queued |
| TaskLifecycle.ParkedOnlyWhenDeadLetterFails | backend/app/queue/base_task.py:156-219 | Parking happens only for a failed dead-lettering or an unqueued attachment, in every environment, if and only if the broker's limit is absent or at least 9 |
| TaskLifecycle.SixthThrottleIsParked | backend/app/queue/base_task.py:219-243 | With the registered limit of 5, six throttled attempts end in the generic queue and not in the lane's own store |
| TaskLifecycle.AppliedAndParked | backend/app/channels/tasks.py:171-191 | An applied inbound message whose attachment cannot be queued is parked as well |
| TaskLifecycle.LostOnlyByHook | backend/app/channels/tasks.py:107-191 | With stores that fail before or after their effect, an event is in no place exactly when no attempt was committed and the last error met a hook that did not park |
| RateLimit.Limiter.IncrWindow | backend/app/core/rate_limit.py:36-41 | The live count plus one is stored and returned; a first increment sets the expiry to one window from now and no other touches it |
| RateLimit.WindowBounds | backend/app/core/rate_limit.py:47-48 | The window index is the one whose window, index times length, holds the moment |
| RateLimit.Limiter.Enforce | backend/app/core/rate_limit.py:44-56 | One request counts in its own window's key and is admitted exactly when the count is within the limit |
| RateLimit.Limiter.EnforceAll | backend/app/core/rate_limit.py:44-56 | Serving a sequence of requests gives each the answer that the laws below are about |
| RateLimit.RunFaithful | backend/app/core/rate_limit.py:36-56 | After any sequence of requests every live counter holds the number of its window's requests for as long as that window lasts |
| RateLimit.AdmittedExactly | backend/app/core/rate_limit.py:44-56 | A request is admitted exactly when fewer than `limit` earlier ones of its identifier fell in its window |
| RateLimit.AdmittedPerWindow | backend/app/core/rate_limit.py:44-56 | Exactly the smaller of `limit` and the number asked is admitted per identifier and window |
| RateLimit.AdmittedPerInterval | backend/app/core/rate_limit.py:44-56 | At most 2 * limit are admitted per identifier in any half-open interval of the window's length |
| RateLimit.ExpiryCoversWindow | backend/app/core/rate_limit.py:36-41 | A key expires in the window that follows its own: never before its window ends, and before the next one does |
| RateCard.Resolve | backend/app/repositories/rate_card.py:21-57 | The row returned is in force with the latest start for the pair, in a currency in force, and None means that no row is in force |
| RateCard.ResolveMany | backend/app/repositories/rate_card.py:42-89 | Last write wins gives each requested pair its rate, in a currency in force; a pair is absent exactly when it has none, and no other pair appears |
| RateCard.CurrenciesExact | backend/app/repositories/rate_card.py:42-57 | The currencies in force are those of the cards in force, and no others |
| RateCard.RateIsUnique | backend/app/repositories/rate_card.py:21-40 | With unique (country, category, start) a pair has at most one rate at an instant, even with overlapping windows |
| RateCard.ResolveBothWays | backend/app/repositories/rate_card.py:21-89 | For every table, pair list and instant, both queries agree on every requested pair |
| RateCard.BatchRefinesSingle | backend/app/repositories/rate_card.py:59-89 | Any batch answer agrees with any single answer, None for absent |
| MessageStatus.AdvancesExact | backend/app/models/message.py:46-65 | Which report changes which status, one by one |
| MessageStatus.FinalStatus | backend/app/models/message.py:46-65 | An accepted message ends failed if that was reported, and otherwise read, delivered, sent or accepted, whichever is the furthest reported |
| MessageStatus.FoldReaches | backend/app/models/message.py:59-65 | Folding a stream ends in `failed` if it occurs, and otherwise at the highest rank seen |
| MessageStatus.ReachedIsUnique | backend/app/models/message.py:46-65 | That description fits only one status |
| MessageStatus.OrderAndRepetitionIrrelevant | backend/app/models/message.py:59-65 | Streams with the same reports, in any order and number, end alike |
| MessageStatus.AtMostFourChanges | backend/app/models/message.py:46-65 | At most 4 changes are accepted from `accepted` on, and one stream has 4 |
| Cursor.LetterExact | backend/app/api/pagination.py:35-46 | The 64 letters, in order, of table 2 of RFC 4648; no other character is a letter |
| Cursor.PackKeepsBits | backend/app/api/pagination.py:35-37 | Every group of three bytes keeps its 24 bits in four sextets, most significant first, with zero bits after the last byte (section 4 of RFC 4648) |
| Cursor.TestVectors | backend/app/api/pagination.py:35-37 | Test vectors of section 10 of RFC 4648 |
| Cursor.UnpackPack | backend/app/api/pagination.py:35-37 | Unpacking the base64url sextets of section 5 of RFC 4648 gives the packed bytes back, for every byte string |
| Cursor.PadLengthExact | backend/app/api/pagination.py:42-42 | `-len % 4` is the least padding that makes whole groups of four |
| Cursor.DecodeAccepts | backend/app/api/pagination.py:40-46 | A text is decoded exactly when it is letters, not one alone in the last group, padded to whole groups |
| Cursor.PaddingRestored | backend/app/api/pagination.py:35-46 | Stripping the padding and restoring it by `-len % 4` gives the encoded text back, which decodes to the bytes |
| Cursor.CursorRoundTrip | backend/app/api/pagination.py:35-46 | Decoding an encoded cursor gives the time and id back, and the cursor needs no escaping in a URL |
| Cursor.CursorSound | backend/app/api/pagination.py:40-46 | A cursor decodes only to what its bytes are parsed as, and is refused otherwise |
| Cursor.ClampLimit | backend/app/api/pagination.py:27-32 | A limit from 1 to 200 is kept, any other number is moved to the nearer end, a missing one is 50, and exactly the unparsable ones are refused |
| Uuid7.Uuid7 | backend/app/db/mixins.py:25-37 | The masked bytes are the time and random bytes as laid out, and a count that does not fit six bytes fails |
| Uuid7.MasksAsArithmetic | backend/app/db/mixins.py:34-36 | The two bit masks, on all bytes, are the arithmetic that the model uses |
| Uuid7.BytesRoundTrip | backend/app/db/mixins.py:30-33 | Reading the big-endian bytes of a number back gives the number |
| Uuid7.Layout | backend/app/db/mixins.py:30-37 | Version and variant bits of section 5.7 of RFC 9562 for all random bytes; the first six bytes are the millisecond count and the random bits are kept |
| Uuid7.TimeOrdered | backend/app/db/mixins.py:30-37 | An earlier millisecond count gives a smaller identifier, whatever the random bytes |
| Percentile.NearestRank | scripts/performance_canary.py:15-22 | The result is an observation, and a value has at least fraction * n observations at most it exactly when it is not below the result |
| Percentile.RefusedExact | scripts/performance_canary.py:17-20 | Refused exactly without observations, and then for a fraction outside (0, 1] |
| Percentile.PermutationInvariant | scripts/performance_canary.py:15-22 | The order of the observations makes no difference |
| Percentile.MonotoneInFraction | scripts/performance_canary.py:15-22 | A larger fraction never gives a smaller result |

## Left out

- SegmentMeaning.RuleMeaning: compares a literal of one kind with a value of another (a number with a text column) as different and ordered by kind; the type coercion of the database is not modelled.
- SegmentGroups.CompilationPreservesMeaning: requires rules that select as said; in one segment a rule that does not can be masked by another, so SegmentMeaningExact speaks of all the segments made of given rules.
- IdempotencyStore.Store.Begin: does not model the length of the time to live; a key may expire at any moment in the protocol.
- Uuid7.Uuid7: models the byte-assembly path only, not the interpreter's own uuid7.
- A list literal compared with a column is accepted by the validator and is an error (`NotALiteral`) when it is compiled; what the statement builder or the driver does with it is not modelled. How a literal that is no text is written into a LIKE pattern is a parameter.
- SQL rendering, collations, indexes and type coercion: equality and IN are exact, case folding is ASCII, and accents count. Whether LIKE minds case is a property of the database (`likeFolds`), so phone number and task searches cover both.
- The task filters are built as a function; the statement object that is reassigned is not modelled.
- JSON, ISO datetimes and decimal texts: printers and parsers are parameters that invert each other.
- Malformed base64 that a lenient decoder would accept by skipping foreign characters is a bad request in the model.
- Floating point: backoffs, clocks, fractions and decimal attribute values are reals; jitter is any value from 0 to the ceiling.
- Broker and store internals, worker crashes, clock skew and a failure between `incr` and `expire`.
- The rate limiter's dependency that lets requests through when the store is down, and its key text, which is the pair (identifier, window) here.
- The failure hook's other destinations (park with alert, job failed) and the tasks that send messages, download media and synchronise templates.
- Duplicate search, task buckets, due notifications, `read_value` and the canary's timing loop: single queries or I/O.
- The service layer: campaign dispatch, rollups, message application.
- Texts of error messages and log lines.
