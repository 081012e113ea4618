# Issuable concern, modelled in Dafny

This project models `Issuable`, the concern that Issues and Merge Requests share in
a GitLab code base (`app/models/concerns/issuable.rb`). Each part of the concern
becomes one kind of Dafny model:

- **Filtering scopes** (`authored`, `assigned_to`, `assigned`, `unassigned`,
  `of_projects`, `of_milestones`, `with_milestone`, the state scopes, `search`,
  `full_search`, `with_label`, `without_label`) are functions from a relation
  (a sequence of rows) to a relation. A `WHERE` keeps the rows that satisfy the
  condition, in their order and with their multiplicity. `Seqs.Selects` states
  this, and `Seqs.FilterAppend` states order preservation.
- **Orderings** (`recent`, `order_milestone_due_asc/desc`, `order_upvotes_desc`,
  `order_downvotes_desc`) are key-sorted permutations of their input. Each is
  proved to be a permutation that satisfies the ordering the SQL asks for.
  The `sort` dispatch routes its four dedicated keys to these orderings and
  passes every other key unchanged to `order_by`, which stays a parameter, so
  nothing is proved about the order those keys give. `grouping_columns`
  returns the list of columns `with_label` groups by, not rows.
- **Per-record predicates** (`open?`, `is_assigned?`, `upvotes`, `downvotes`,
  `user_notes_count`, `today?`, `new?`, `label_names`) and the validations are
  functions over one record and the tables it joins against (`Records.Db`).
- **`add_labels_by_names` and `remove_labels`** are methods of a class
  `Labels.LabelStore` that updates the label and label-link tables in place.
  A pure function (`AttachByNames`, `RemoveLinks`) specifies each method.
- **`update_assignee_cache_counts`** is a method of `AssigneeCache.UserCache`,
  specified by `FlushTargets`. It records which users' cached counts are flushed.

Each file holds one module:

- `wrappers.dfy`: `Option` and `Result`.
- `seqs.dfy`: filtering, counting and replication of sequences.
- `keysort.dfy`: a sort by lexicographic integer keys.
- `text.dfy`: case-insensitive substring search and `strip`.
- `records.dfy`: the datatypes, per-record predicates, accessors and validation.
- `scopes.dfy`, `orderings.dfy`, `labels.dfy`, `assignee.dfy`: the parts named
  by the file.

The database is passed in explicitly as `Records.Db`: the concrete class name
(the value stored in polymorphic type columns), the ids of existing users, the
milestones, notes, labels and label links. Timestamps are seconds since the
epoch in UTC. "Today" is a parameter.

Behaviour of the code that the model keeps as written:

- `add_labels_by_names` reuses an existing label by title, but it appends a
  link for every name without looking for an existing link. Attaching the same
  name twice therefore gives two links, so the operation is not idempotent
  (`Labels.AttachRepeatedName`).
- `with_label([])` is a join with `WHERE title IN ()`, which matches nothing
  (`Scopes.WithLabelEmptyMatchesNothing`); an empty title list is not "no
  label filter".
- With a single title, `with_label` is a plain inner join. A row that matches
  through several label links appears once per link (`Scopes.WithLabel`).
- `grouping_columns` compares its argument with two Strings without `to_s`,
  while `sort` calls `to_s`. A Symbol `:milestone_due_asc` therefore routes to
  the milestone ordering but adds no milestone columns
  (`Orderings.GroupingColumnsFollowSort`).
- The title is stripped of ASCII white space only, while the presence
  validation uses `blank?`, which counts every Unicode white-space character.
  A title of one no-break space is stored unchanged and rejected
  (`Records.NoBreakSpaceTitleRejected`).

## Model

| member | source | states |
|---|---|---|
| Records.OpenIffNotClosed | app/models/concerns/issuable.rb:182-184 | `open?` holds exactly when the state is opened or reopened, that is, not closed |
| Records.UpvoteRenamed | app/models/concerns/issuable.rb:190-192 | `upvotes` counts only award notes named exactly "thumbsup": renaming one of them lowers the count by one |
| Records.AwardCountAddNote | app/models/concerns/issuable.rb:186-192 | a new note raises a record's tally for an emoji by one exactly when it is an award note of that name on that record, else leaves it unchanged |
| Records.UserNotesCount | app/models/concerns/issuable.rb:194-196 | `user_notes_count` counts notes of the table, so it never exceeds their number |
| Records.UserNotesCountAddNote | app/models/concerns/issuable.rb:194-196 | a new note raises `user_notes_count` by one exactly when it is a non-system note on the record |
| Records.IsToday | app/models/concerns/issuable.rb:166-168 | `today?` holds exactly when the creation time falls within the given UTC day |
| Records.IsNew | app/models/concerns/issuable.rb:170-172 | `new?` holds exactly when the record was created that day and never updated afterwards |
| Records.LabelNames | app/models/concerns/issuable.rb:220-222 | `label_names` returns the titles of the record's labels, as a multiset, in ascending code-point order |
| Records.Validate | app/models/concerns/issuable.rb:24-25 | validation reports a missing author exactly when the author does not resolve, a blank title exactly when it consists of Unicode white space only (`blank?`), and a too-long title exactly when it exceeds 255 characters |
| Records.StrippedTitleValidation | app/models/concerns/issuable.rb:68 | storing the title stripped never changes whether it is blank, and never makes a valid length invalid |
| Records.NoBreakSpaceTitleRejected | app/models/concerns/issuable.rb:24-25 | a title of one no-break space is kept by `strip` and still rejected as blank |
| Text.AllSpaceIffStripEmpty | app/models/concerns/issuable.rb:68 | `strip` leaves nothing exactly when the title consists of ASCII white space |
| Text.StripEmptyIsBlank | app/models/concerns/issuable.rb:25 | a title that `strip` empties is blank |
| Text.StripKeepsBlank | app/models/concerns/issuable.rb:68 | stripping never changes whether the title is blank |
| Text.NoBreakSpaceBlankNotStripped | app/models/concerns/issuable.rb:25 | a no-break space is blank, yet `strip` keeps it, so blank is not the same as stripped to nothing |
| Text.StripIdempotent | app/models/concerns/issuable.rb:68 | stripping a stripped title changes nothing |
| Text.StripSlice | app/models/concerns/issuable.rb:68 | the stripped title is the slice of the title between its leading and trailing white space, and neither starts nor ends with white space |
| Scopes.Authored | app/models/concerns/issuable.rb:27 | `authored(user)` keeps exactly the rows with that author id, each as often as it occurs |
| Scopes.AssignedTo | app/models/concerns/issuable.rb:28 | `assigned_to(u)` keeps exactly the rows assigned to `u` |
| Scopes.Assigned | app/models/concerns/issuable.rb:30 | `assigned` keeps exactly the rows for which `is_assigned?` holds |
| Scopes.Unassigned | app/models/concerns/issuable.rb:31 | `unassigned` keeps exactly the rows for which `is_assigned?` fails |
| Scopes.IsAssignedMatchesScopes | app/models/concerns/issuable.rb:174-176 | a row of the relation satisfies `is_assigned?` exactly when `assigned` keeps it, and fails it exactly when `unassigned` keeps it |
| Scopes.AssignedPartition | app/models/concerns/issuable.rb:30-31 | `assigned` and `unassigned` together hold every row exactly as often as the relation |
| Scopes.OfProjects | app/models/concerns/issuable.rb:32 | `of_projects(ids)` keeps exactly the rows whose project is in `ids` |
| Scopes.OfMilestones | app/models/concerns/issuable.rb:33 | `of_milestones(ids)` keeps exactly the rows whose milestone id (possibly nil) is in `ids` |
| Scopes.WithMilestone | app/models/concerns/issuable.rb:34 | `with_milestone(title)` keeps exactly the rows whose left-joined milestone has that title; a nil title keeps the rows without a milestone row |
| Scopes.Opened | app/models/concerns/issuable.rb:35 | `opened` keeps exactly the rows for which `open?` holds |
| Scopes.OnlyOpened | app/models/concerns/issuable.rb:36 | `only_opened` keeps exactly the opened rows |
| Scopes.OnlyReopened | app/models/concerns/issuable.rb:37 | `only_reopened` keeps exactly the reopened rows |
| Scopes.Closed | app/models/concerns/issuable.rb:38 | `closed` keeps exactly the rows for which `open?` fails |
| Scopes.StateScopesPartition | app/models/concerns/issuable.rb:35-38 | `only_opened`, `only_reopened` and `closed` partition every relation, and `opened` is the first two together |
| Scopes.Search | app/models/concerns/issuable.rb:89-91 | `search(q)` keeps exactly the rows whose title contains `q`, ignoring case |
| Scopes.FullSearch | app/models/concerns/issuable.rb:100-105 | `full_search(q)` keeps exactly the rows whose title or non-null description contains `q`, ignoring case |
| Scopes.SearchWithinFullSearch | app/models/concerns/issuable.rb:89-105 | every row `search` keeps, `full_search` keeps as often |
| Scopes.SearchEmptyQuery | app/models/concerns/issuable.rb:89-105 | an empty query filters nothing out in either search |
| Scopes.SearchScenario | app/models/concerns/issuable.rb:89-91 | "Fix login bug" is found by "login" and "LOGIN" but not by "signup" |
| Scopes.MatchedTitles | app/models/concerns/issuable.rb:143 | the distinct titles counted by the `HAVING` clause are requested titles that the row carries |
| Scopes.JoinLabelRowsMultiset | app/models/concerns/issuable.rb:145 | the label join repeats each row once per label whose title is requested |
| Scopes.WithLabel | app/models/concerns/issuable.rb:141-147 | with several titles a row is kept, as often as it occurs, exactly when its count of distinct matching titles equals the number asked for; otherwise each row appears once per matching label |
| Scopes.WithLabelAllOf | app/models/concerns/issuable.rb:142-143 | with several distinct titles, a row is kept exactly when it carries all of them |
| Scopes.WithLabelDuplicatesMatchNothing | app/models/concerns/issuable.rb:142-143 | a title list with a duplicate matches no row |
| Scopes.WithLabelSingle | app/models/concerns/issuable.rb:144-146 | with one title, a row is kept exactly when it carries a label of that title |
| Scopes.WithLabelEmptyMatchesNothing | app/models/concerns/issuable.rb:144-146 | an empty title list matches no row |
| Scopes.WithoutLabel | app/models/concerns/issuable.rb:44 | `without_label` keeps exactly the rows with no label link of this class |
| Scopes.NoLinksNoLabels | app/models/concerns/issuable.rb:44 | a target without label links has no labels |
| Scopes.WithoutLabelHasNoLabels | app/models/concerns/issuable.rb:44 | every row `without_label` keeps has an empty label set |
| Orderings.Recent | app/models/concerns/issuable.rb:29 | `recent` is a permutation of its input with ids non-increasing |
| Orderings.MilestoneKeyOrder | app/models/concerns/issuable.rb:41-42 | the three-column ORDER BY puts dated rows first, then undated milestones, then no milestone, and dated rows by due date in the chosen direction |
| Orderings.OrderMilestoneDue | app/models/concerns/issuable.rb:40-42 | both milestone orderings are permutations that are null-last in that sense, ascending or descending by due date |
| Orderings.OuterJoinCount | app/models/concerns/issuable.rb:126-138 | the outer join gives every row a non-empty group, whose `COUNT(notes.id)` is the row's tally for the emoji |
| Orderings.VoteSortedNonIncreasing | app/models/concerns/issuable.rb:138 | sorting by `COUNT(notes.id) DESC` leaves the tallies non-increasing |
| Orderings.OrderVotesDesc | app/models/concerns/issuable.rb:126-139 | `order_votes_desc` returns every input row exactly as often, zero-vote rows included, with tallies non-increasing |
| Orderings.OrderUpvotesDesc | app/models/concerns/issuable.rb:122-124 | `order_upvotes_desc` is a permutation with `upvotes` non-increasing |
| Orderings.OrderDownvotesDesc | app/models/concerns/issuable.rb:118-120 | `order_downvotes_desc` is a permutation with `downvotes` non-increasing |
| Orderings.UpvotesScenario | app/models/concerns/issuable.rb:122-139 | rows with 3, 0 and 1 upvotes come out as 3, 1, 0: the zero-vote row is last, not dropped |
| Orderings.Sort | app/models/concerns/issuable.rb:107-116 | the four dedicated keys (after `to_s`) give their orderings, and any other key, nil included, goes unchanged to `order_by`, never to an error |
| Orderings.GroupingColumns | app/models/concerns/issuable.rb:153-163 | the grouping always starts with the issuable id, and adds the milestone id and due date, once each, exactly for the two milestone keys given as Strings |
| Orderings.GroupingColumnsFollowSort | app/models/concerns/issuable.rb:107-163 | for a String key the milestone columns are added exactly when `sort` routes to a milestone ordering; a Symbol key adds none |
| Labels.FindProjectLabel | app/models/concerns/issuable.rb:230-231 | the lookup half of `find_or_create_by` returns a label of the project with that title, or none exists |
| Labels.FindUnique | app/models/concerns/issuable.rb:230-231 | in consistent tables the lookup finds the one label of the project with that title |
| Labels.FindOrCreate | app/models/concerns/issuable.rb:230-231 | the label returned belongs to the project and has the title; a label is appended exactly when none existed, with the next id and the default color; links are untouched |
| Labels.AttachByTitlesConsistent | app/models/concerns/issuable.rb:228-234 | adding labels keeps label ids distinct and below the next id, and never gives a project two labels with one title |
| Labels.AttachByTitlesCreates | app/models/concerns/issuable.rb:228-234 | old labels are kept as a prefix; each new label belongs to the project, has the default color and a requested title the project lacked |
| Labels.AttachByTitlesLinks | app/models/concerns/issuable.rb:228-234 | old links are kept as a prefix; exactly one link per title is appended, in order, from the issuable to the project label with that title |
| Labels.AttachByNamesAsNamed | app/models/concerns/issuable.rb:228-234 | `add_labels_by_names` does all of the above with every name stripped first |
| Labels.AttachRepeatedName | app/models/concerns/issuable.rb:228-234 | "x", "x", " x " on a fresh project create one label "x" and three links to it: links are not deduplicated |
| Labels.RemoveLinksDetaches | app/models/concerns/issuable.rb:224-226 | after `remove_labels` the issuable has no labels, and every other target keeps exactly its labels |
| Labels.LabelStore.AddLabelsByNames | app/models/concerns/issuable.rb:228-234 | the loop leaves the tables consistent and equal to `AttachByNames` of the old tables |
| Labels.LabelStore.AttachTitle | app/models/concerns/issuable.rb:229-232 | one iteration finds or creates the label and appends one link, keeping the tables consistent |
| Labels.LabelStore.RemoveLabels | app/models/concerns/issuable.rb:224-226 | `remove_labels` deletes the issuable's links and leaves the labels and the id counter unchanged |
| AssigneeCache.FlushTargets | app/models/concerns/issuable.rb:72-78 | the callback flushes nothing unless the assignee changed; otherwise it fails exactly when the previous assignee no longer exists, and else flushes exactly the existing users whose assignment changed, each once, the previous assignee before the new one |
| AssigneeCache.FlushScenarios | app/models/concerns/issuable.rb:72-78 | U1→U2 flushes both, none→U2 and U2→none flush U2, an unchanged assignee flushes nobody, and a deleted previous assignee is an error |
| AssigneeCache.UserCache.AfterSave | app/models/concerns/issuable.rb:72-78 | the callback appends exactly the flush targets, or reports the missing user and flushes nothing |

## Left out

- `to_hook_data`, `card_attributes`, `to_ability_name`, `can_move?`, `subscribed_without_subscriptions?`, `labels_array`, `notes_with_associations` and `updated_tasks`: they format payloads, reflect on class names, eager-load or call modules that are not part of this model.
- `join_project`, `references_project` and `non_archived`: they join a Project table that is not part of this model.
- `Participable`, `Mentionable`, `Subscribable`, `attr_mentionable` and `participant`: those modules are not part of this model.
- `strip_attributes :title` is modelled only as "the title is stored stripped" (`StripTitle`). Ruby's `strip` also removes NUL characters, and this model does not.
- `acts_as_paranoid`, `dependent: :destroy`, `delegate` and the `belongs_to`/`has_many` declarations are framework behaviour. Soft-deleted rows are simply absent from the tables.
- `order_by(method)` comes from a module that is not part of this model. `Sort` takes it as a parameter.
- Orderings do not fix the order of rows with equal keys, because the SQL leaves it open.
- Orderings.OrderVotesDesc: it assumes each row occurs once in its input, because `GROUP BY id` would merge duplicates.
- `with_label(nil)`, which would match labels with a NULL title, is not modelled, because label titles are never null here.
- `Search`, `FullSearch`: the query is a literal substring. `%` and `_` in it are not treated as wildcards, and case folding is ASCII only (PostgreSQL `ILIKE` folds all of Unicode; MySQL `LIKE` depends on the collation).
- Records.IsToday: `Date.today` and `to_date` are taken in UTC, and today is a parameter.
- Records.IsNew: as for `IsToday`; timestamps are whole seconds, so a record updated within the second it was created still counts as new, whereas the database compares them at full (microsecond) precision.
- Records.LabelNames: `order('title ASC')` is modelled as code-point order, which is what a binary or C collation gives; under a case-insensitive collation "bug" would come before "Feature".
- Scopes.WithLabel: with several titles the model keeps an input row as often as it occurs, because `GROUP BY id` would merge duplicate rows; the relation is assumed to hold each row once.
- Scopes.WithLabel: the `sort` argument is dropped. Its milestone grouping columns never split a row's group when the relation is left-joined to milestones, as `sort` does; `with_label` called with a milestone key on a relation without that join is a query the database rejects, which is not modelled.
- `Upvotes`, `Downvotes`, `UserNotesCount`: the `awards` and `user` note scopes are not part of this model. They are taken to mean `is_award` and "not a system note".
- `Labels.DefaultColor`: the value of `Label::DEFAULT_COLOR` and the Label model's own validations are not part of this model.
- `Labels.LabelStore.AddLabelsByNames`: it is atomic, and the race between concurrent `find_or_create_by` calls is not modelled.
- `AssigneeCache.UserCache.AfterSave`: `update_cache_counts` is recorded as an appended user id. A raised `RecordNotFound` becomes the returned id.
- `close`/`reopen` transitions: they are defined in the Issue and MergeRequest models, not in this concern.
