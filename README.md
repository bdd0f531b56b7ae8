# Polls: a verified model of the voting core

The system is a small Django REST Framework service for polls. Staff create
polls, other users create proposals, and authenticated users vote once per
poll and read the results. Three tables hold the data: polls, choices
(unique text per poll) and votes (one vote per user and poll). A management
command backfills the three default choices "Concordo", "Discordo" and
"Neutro" on polls that lack them.

This project models that core in Dafny:

- `Models` (models.dfy): the rows and the database constraints as one
  invariant, `Consistent`, with lemmas that every modelled write keeps it,
  except the choice move described under "## Findings".
- `Storage` (storage.dfy): a `Store` class whose methods are the ORM writes
  the views perform. Each one states what every table becomes.
- `Permissions` (permissions.dfy): the permission classes as predicates over
  the request's user and HTTP method.
- `Serializers` (serializers.dfy): the guard chain of the vote serializer,
  its insert, and the results percentage.
- `Tally` (tally.dfy): the `results` aggregation, with a proof that the
  per-choice counts add up to the poll's total and the percentages to 100.
- `Views` (views.dfy): both view sets. This covers `get_permissions` as
  methods that set the view's `permissionClasses` field, and every action as
  a method on the store, in DRF's order: permission, lookup, validation,
  write. It also has a capability matrix that the dispatch is proved to
  implement.
- `Backfill` (backfill.dfy): the command's loop as a method, proved equal to
  a left fold. The fold is proved to complete every poll, to only append
  default choices, to count exactly what was missing, and to be idempotent.
- `Seqs` and `Wrappers` are generic helpers.

Errors are values (`Outcome`, `Error`):

- `AuthError`: 401, an unauthenticated user.
- `PermissionError(detail)`: 403.
- `NotFound`: 404.
- `ValidationError(field, message)`: 400.

The request's user, the clock (`now`) and a concurrent insert (`raced`) are
parameters.

Where the code and its comments disagree, the model follows the code:

- polls/views.py:97 says admins may edit `is_active`. `PollSerializer` makes
  `is_active` and `is_proposal` read-only (polls/serializers.py:33-34), so
  an update can change only the title, the description and the deadline.
- `IsAdminOrOwner` promises access for the owner, but its object check only
  lets staff through (polls/permissions.py:17-27).
  `Permissions.AdminOrOwnerIsAdminOnly` states this.
- The `vote` action's decorator names `CanVote`, but `get_permissions`
  replaces it with `IsAuthenticated`. Both decide the same
  (`Permissions.AuthenticationOnlyClasses`).
- The comment in `IsAdminOrPollCreatorForChoices` (polls/permissions.py:32)
  lets every authenticated user list choices. `ChoiceViewSet` never uses
  that class: its `get_permissions` gives list and retrieve to `IsAdminOnly`
  (polls/views.py:165-167). Other users see a poll's choices only through
  the poll's nested `choices` field (polls/serializers.py:31). The
  capability matrix in `Views` follows the code, so
  `Views.ChoiceDispatchMatchesMatrix` gives voters no choice reads.

## Model

| member | source | states |
|---|---|---|
| Models.DefaultTextsOrdered | polls/management/commands/add_default_choices_to_existing_polls.py:10 | the three default texts are pairwise different, in the order "Concordo", "Discordo", "Neutro" |
| Models.CleanAgreesWithVotable | polls/models.py:19-22 | for an active poll, `Poll.clean` accepts exactly the polls the vote serializer treats as open; an inactive poll passes `clean` and takes no votes |
| Models.OneVotePerUserAndPoll | polls/models.py:44-45 | in a consistent store no two vote rows share a (user, poll) pair |
| Models.StoredVotesPassClean | polls/models.py:47-50 | no stored vote is rejected by `Vote.clean`: its choice belongs to its poll |
| Models.PollTextsOfNew | polls/views.py:87-91 | the rows a bulk create adds give their poll exactly the texts asked for, and give every other poll no text |
| Models.InsertPollKeeps | polls/models.py:6-14 | appending a poll with the next key keeps every table constraint |
| Models.InsertChoicesKeeps | polls/models.py:25-34 | appending choices with fresh keys, texts pairwise different and new to an existing poll keeps every constraint, including unique (poll, choice_text) |
| Models.InsertVoteKeeps | polls/models.py:37-45 | appending a vote for a user with no vote on the poll, on a choice of that poll, keeps every constraint, including unique (user, poll) |
| Models.ReplacePollKeeps | polls/models.py:6-14 | replacing a poll row under the same key keeps every constraint |
| Models.RenameChoiceKeeps | polls/models.py:33-34 | renaming a choice to a text no other choice of its poll has keeps every constraint |
| Models.DeletePollKeeps | polls/models.py:27-41 | deleting a poll with its choices and votes (the CASCADE foreign keys) keeps every constraint |
| Models.DeleteChoiceKeeps | polls/models.py:41 | deleting a choice with its votes keeps every constraint |
| Storage.Store.GetPoll | polls/views.py:108 | the lookup returns the row with that key, and nothing exactly when no such row exists |
| Storage.Store.GetChoice | polls/serializers.py:68 | the same for a choice key |
| Storage.Store.InsertPoll | polls/views.py:84 | the poll is appended with the next key, and the other tables are unchanged |
| Storage.Store.BulkCreateChoices | polls/views.py:87-91 | the new rows are appended in order with consecutive keys, the choice counter advances by their number, and nothing else changes |
| Storage.Store.InsertVote | polls/serializers.py:84-90 | the insert succeeds exactly when the user has no vote on the poll and no concurrent insert won; it then appends the vote and otherwise changes nothing |
| Storage.Store.ReplacePoll | polls/views.py:94-98 | only the poll row at that position changes, and the store stays consistent |
| Storage.Store.RenameChoice | polls/models.py:33-34 | only the choice's text changes, and the store stays consistent |
| Storage.Store.ReplaceChoice | polls/serializers.py:23-27 | the choice row at that position is replaced, poll included, and nothing else changes; consistency is not promised |
| Storage.Store.DeletePoll | polls/views.py:100-103 | the poll, its choices and its votes are gone, and every other row stays, in order |
| Storage.Store.DeleteChoice | polls/models.py:41 | the choice and its votes are gone, and every other row stays |
| Permissions.AdminOnlyAllowsStaff | polls/permissions.py:5-7 | `IsAdminOnly` allows exactly the authenticated staff |
| Permissions.AuthenticationOnlyClasses | polls/permissions.py:31-36 | the choice class's `has_permission`, `CanVote` and `IsAuthenticated` each allow exactly the authenticated users, for every method |
| Permissions.ChoicesObjectPermissionCases | polls/permissions.py:38-52 | safe methods need authentication; other methods need staff, or a proposal the user created |
| Permissions.AdminOrOwnerIsAdminOnly | polls/permissions.py:9-27 | the object check of `IsAdminOrOwner` allows exactly the staff, with no owner branch |
| Permissions.AnonymousDenied | polls/permissions.py:54-59 | an unauthenticated user is refused by every class, except `IsAdminOrOwner`'s default `has_permission`, and by both object checks |
| Serializers.VoteGuards | polls/serializers.py:59-80 | the guards pass exactly when the context holds a poll, the choice belongs to it, it is active and not past its deadline, and the user has not voted on it; each failing guard gives its own field and message, in the order the serializer checks them |
| Serializers.DeadlineBoundary | polls/serializers.py:75 | a deadline equal to now still takes votes, and one before now does not |
| Serializers.SecondVoteRejected | polls/serializers.py:78-80 | once a vote is stored, every later vote by the same user on that poll is refused, with "already voted" when the earlier guards pass |
| Serializers.CreateVote | polls/serializers.py:59-90 | a failed guard gives its error and writes nothing; an insert lost to a concurrent duplicate gives the duplicity message; otherwise the vote is appended with the next key |
| Serializers.Percentage | polls/serializers.py:100-110 | 0 when there are no votes, otherwise count / total × 100 exactly, and at most 100 when the count is at most the total |
| Tally.ChoiceResults | polls/views.py:131-135 | one entry per choice of the poll, in order, with the choice's text, its own vote count and its percentage of the total |
| Tally.SumCountsIsPollTotal | polls/views.py:127-131 | when each vote on the poll points at exactly one of the given choices, the per-choice counts add up to the poll's vote count |
| Tally.CountAtMostSum | polls/views.py:131 | no single choice's count exceeds the sum of the counts |
| Tally.PercentNumsAreScaledCounts | polls/serializers.py:100-110 | the exact percentages add up to 100 × (sum of counts) / total, or to 0 when the total is 0 |
| Tally.ChoicesOfPollAreVoteTargets | polls/models.py:37-50 | in a consistent store the choices of a poll have distinct keys and are exactly the targets of that poll's votes |
| Tally.ResultsAddUp | polls/views.py:121-149 | in a consistent store the counts add up to the total; each count is at most the total; each percentage is between 0 and 100, all are 0 with no votes, and otherwise they add up to exactly 100 |
| Views.PollViewSet.constructor | polls/views.py:31 | the default permission list is `[IsAuthenticated]` |
| Views.PollViewSet.GetPermissions | polls/views.py:39-53 | create, list, retrieve, results, vote and any other action get `IsAuthenticated`; update, partial_update and destroy get `IsAdminOnly`; the field is set and returned |
| Views.ChoiceViewSet.constructor | polls/views.py:156 | the default permission list is `[IsAdminOnly]` |
| Views.ChoiceViewSet.GetPermissions | polls/views.py:158-172 | create gets `IsAuthenticated` and every other action `IsAdminOnly`; the field is set and returned |
| Views.PollDispatchMatchesMatrix | polls/views.py:39-53 | for every poll action, the dispatch allows exactly what the role matrix grants, and refuses with an authentication error exactly the unauthenticated user |
| Views.ChoiceDispatchMatchesMatrix | polls/views.py:158-172 | for every choice action except create, the dispatch allows exactly what the matrix grants: staff only, even for a proposal's owner |
| Views.CreatePoll | polls/views.py:55-91 | an unauthenticated user is refused and nothing is written; otherwise the poll is stored, active, with the user as creator, a proposal exactly when the user is not staff, followed by the three default choices |
| Views.CreatedPollHasExactlyDefaults | polls/views.py:87-91 | a poll created through the view has exactly the three default texts as choices, and no other choice |
| Views.ApplyPatch | polls/serializers.py:29-39 | an update changes only the fields given (title, description, deadline); key, creator, creation time, `is_active` and `is_proposal` stay |
| Views.AdminPollGate | polls/views.py:44-46 | passes exactly for staff on an existing poll; otherwise it gives an authentication, permission or not-found error, in that order |
| Views.UpdatePoll | polls/views.py:94-98 | a refused request writes nothing; an admin's update replaces the poll row by the patched one and changes nothing else |
| Views.DestroyPoll | polls/views.py:100-103 | a refused request writes nothing; an admin's delete removes the poll with its choices and votes |
| Views.VoteOnPoll | polls/views.py:105-119 | unauthenticated: authentication error; missing poll: not found; unknown choice key: invalid primary key on `choice`; then the serializer's guards; a vote is stored only when they all pass and no concurrent duplicate won |
| Views.Results | polls/views.py:121-149 | unauthenticated: authentication error; missing poll: not found; an authenticated user on an existing poll always gets a result: the poll's key, title, active flag and deadline, its vote total, and per choice its text and own count |
| Views.ChoiceCreateGate | polls/views.py:175-212 | passes exactly for an authenticated user, an existing poll, a text new to it, and staff or the creator of that proposal; each failure gives its own error, in DRF's order |
| Views.ChoiceCreationMatchesMatrix | polls/views.py:192-196 | for a valid request, choice creation is allowed exactly as the matrix grants (staff, or the owner of a proposal), and a refused authenticated user gets the "own proposals" error |
| Views.CreateChoice | polls/views.py:175-212 | a refused request writes nothing; an allowed one appends the choice with the next key |
| Views.AdminChoiceGate | polls/views.py:165-167 | passes exactly for staff on an existing choice; otherwise authentication, permission or not-found error |
| Views.UpdateChoice | polls/models.py:33-34 | an admin's rename succeeds exactly when no other choice of the same poll has the text, and then changes only that text; the store stays consistent |
| Views.MoveChoice | polls/serializers.py:23-27 | an admin's update with a new poll: the poll must exist (invalid key otherwise), the text must be new to that poll, and then the row takes the new poll and text while its votes keep the old poll |
| Views.MoveChoiceBreaksResults | polls/views.py:121-149 | on a consistent store, moving a choice with three votes onto a poll with one vote breaks `Consistent`, and `results` then reports the moved choice at exactly 300/1 percent; `Views.ExampleMoveIsMoveChoice` shows that this table is what `MoveChoice`'s contract yields for that request |
| Views.ExampleMoveIsMoveChoice | polls/serializers.py:23-27 | for the example store, an admin's move of choice 1 to poll 2 passes the permission gate, the poll key check and the unique-together check, so `MoveChoice` writes exactly the example's moved table |
| Views.DestroyChoice | polls/views.py:165-167 | a refused request writes nothing; an admin's delete removes the choice and its votes |
| Backfill.ExistingDefaultTextsSpec | polls/management/commands/add_default_choices_to_existing_polls.py:24-27 | the existing default texts of a poll are the default texts among its choices' texts |
| Backfill.MissingDefaultsSpec | polls/management/commands/add_default_choices_to_existing_polls.py:30-32 | the missing texts are exactly the default texts not present, none exactly when all are present, at most three, in the default order |
| Backfill.MissingForSpec | polls/management/commands/add_default_choices_to_existing_polls.py:24-32 | what a poll lacks is exactly the default texts none of its choices carries, in the default order |
| Backfill.MissingForFits | polls/management/commands/add_default_choices_to_existing_polls.py:34-39 | the texts to create are pairwise different and new to the poll, so the bulk create never breaks unique (poll, choice_text) |
| Backfill.FreshPollLacksNothing | polls/views.py:87-91 | a poll created through the view lacks no default choice |
| Backfill.MissingForSameTexts | polls/management/commands/add_default_choices_to_existing_polls.py:24-32 | what a poll lacks depends only on the texts of its own choices |
| Backfill.HandlePoll | polls/management/commands/add_default_choices_to_existing_polls.py:20-45 | one turn of the loop equals one step of the fold: it creates what the poll lacks and bumps both counters, or changes nothing |
| Backfill.Handle | polls/management/commands/add_default_choices_to_existing_polls.py:9-45 | the run leaves the choices, the key counter and both counts equal to the fold over all polls in table order, and leaves polls and votes alone |
| Backfill.BackfillCompletes | polls/management/commands/add_default_choices_to_existing_polls.py:20-43 | after the run, every poll has a choice for every default text |
| Backfill.BackfillAppendsOnly | polls/management/commands/add_default_choices_to_existing_polls.py:39-43 | the run only appends rows with consecutive keys; the choice counter and the "choices added" count grow by the number of rows added |
| Backfill.BackfillAddsDefaultsOnly | polls/management/commands/add_default_choices_to_existing_polls.py:36-39 | every added row carries a default text and belongs to one of the polls |
| Backfill.BackfillCounters | polls/management/commands/add_default_choices_to_existing_polls.py:42-43 | at most one update per poll, and one to three choices per updated poll |
| Backfill.BackfillIdempotent | polls/management/commands/add_default_choices_to_existing_polls.py:34-45 | a run over polls that already have all default texts changes and counts nothing |
| Backfill.SecondRunAddsNothing | polls/management/commands/add_default_choices_to_existing_polls.py:9-55 | running the command twice: the second run adds nothing and reports zero polls and zero choices |
| Backfill.BackfillOtherPolls | polls/management/commands/add_default_choices_to_existing_polls.py:36-39 | a run over other polls leaves a poll's texts alone |
| Backfill.BackfillAddsExactlyMissing | polls/management/commands/add_default_choices_to_existing_polls.py:42-43 | over polls with distinct keys, "choices added" is the total number of default choices missing at the start, and "polls updated" the number of polls that lacked one |

## Left out

- HTTP plumbing: routing, response bodies and status codes beyond the error kinds, and the output serializer of `create`.
- User registration and token login (`UserRegistrationView` and its serializer) and the admin site are not part of this model.
- Field-level validation of request bodies (`max_length`, required fields, date parsing) is not modelled; titles, texts and deadlines arrive already parsed.
- The list and retrieve actions only read and filter; they and the `-created_at` ordering of the poll list are not modelled.
- Serializers.Percentage: the result is the exact fraction; the source's float division and rounding to two decimals are not modelled, so the rounded values may not add up to exactly 100.
- Concurrency: transactions and interleavings are not modelled. A concurrent duplicate vote is the `raced` parameter of the vote insert. Creating a poll and its default choices is two writes, and the model does not capture a failure between them.
- The clock (`timezone.now()`) and the request's user are parameters.
- Views.UpdateChoice: changes only the choice text. The source's update can also move the choice to another poll; that is `Views.MoveChoice`. It breaks the `Vote.clean` rule (polls/models.py:47-50) for the choice's votes, so `Consistent` and the bounds of `Tally.ResultsAddUp` do not hold after it (see "## Findings").
- Deleting users (the CASCADE from `User` to polls and votes) is not modelled: users are bare keys.
- Tally.ChoiceResults: the entries come in choice-table order. The query at polls/views.py:131 has no `order_by` and `Choice` has no default ordering, so the source leaves the order to the database.
- Views.Results: the percentages of the entries are given by `Tally.ChoiceResults` and their properties by `Tally.ResultsAddUp`, rather than restated in the view's contract.
- The command's console output (progress lines and totals) is not modelled; only the two counters are.
- `__str__` methods and `PollCreateSerializer`'s field list are presentation and are not modelled.

## Findings

| source | as written | input that shows it | evidently intended | confidence | as-written member | corrected member |
|---|---|---|---|---|---|---|
| polls/serializers.py:23-27 | `ChoiceSerializer` leaves `poll` writable, so an admin's PUT or PATCH on a choice can move it to another poll; the choice's votes keep their old `poll`, and `Vote.clean` is not run | polls 1 and 2; choice 1 on poll 1 with three votes, choice 2 on poll 2 with one vote; move choice 1 to poll 2: `results` for poll 2 gives a total of 1 and 300 percent for choice 1 | moving a choice is deliberate (the comment at polls/serializers.py:27), but the `Vote.clean` rule of polls/models.py:47-50 (a vote's choice belongs to the vote's poll) must keep holding, so that a poll's percentages add up to 100; the corrected `Views.UpdateChoice` forbids moves altogether, which is stricter than that rule | not executed | Views.MoveChoiceBreaksResults | Views.UpdateChoice |
