/** The issuable record (an Issue or a MergeRequest row) and the tables its
    associations live in, with the per-record predicates and accessors of the
    Issuable concern. */
module Records {
  import opened Wrappers
  import opened Seqs
  import opened KeySort
  import opened Text

  type UserId = int

  /** Seconds since the Unix epoch, UTC. */
  type Timestamp = int

  /** Days since the Unix epoch, UTC. */
  type Day = int

  const SecondsPerDay := 86400

  /** The three states of the issuable state machine. */
  datatype State = Opened | Reopened | Closed

  datatype Issuable = Issuable(
    id: int,
    title: string,
    description: Option<string>,
    state: State,
    authorId: Option<UserId>,
    assigneeId: Option<UserId>,
    milestoneId: Option<int>,
    projectId: int,
    createdAt: Timestamp,
    updatedAt: Timestamp)

  datatype Milestone = Milestone(id: int, title: string, dueDate: Option<Day>)

  /** A note on a polymorphic target; award notes carry an emoji name in `note`. */
  datatype Note = Note(noteableType: string, noteableId: int, isAward: bool, system: bool, note: string)

  datatype Label = Label(id: int, projectId: int, title: string, color: string)

  /** A row of the polymorphic `label_links` join table. */
  datatype LabelLink = LabelLink(labelId: int, targetType: string, targetId: int)

  /** The tables the issuable scopes join against. `className` is the concrete
      issuable class ("Issue", "MergeRequest"), the value stored in the
      polymorphic type columns of notes and label links. */
  datatype Db = Db(
    className: string,
    users: set<UserId>,
    milestones: seq<Milestone>,
    notes: seq<Note>,
    labels: seq<Label>,
    links: seq<LabelLink>)

  // ---- state -------------------------------------------------------------

  /** `open?`: the record is opened or reopened. */
  predicate IsOpen(r: Issuable)
  {
    r.state == Opened || r.state == Reopened
  }

  /** Open and closed are complementary: a record is open exactly when it is
      not closed. */
  lemma OpenIffNotClosed(r: Issuable)
    ensures IsOpen(r) <==> r.state != Closed
  {
  }

  /** `is_assigned?` (`!!assignee_id`): an assignee id is set. */
  predicate IsAssigned(r: Issuable)
  {
    r.assigneeId.Some?
  }

  // ---- milestone join ----------------------------------------------------

  /** The first milestone row with the given id. */
  function FindMilestone(ms: seq<Milestone>, id: int): (m: Option<Milestone>)
    ensures m.Some? ==> m.value in ms && m.value.id == id
    ensures m.None? ==> forall k :: 0 <= k < |ms| ==> ms[k].id != id
  {
    if ms == [] then None
    else if ms[0].id == id then Some(ms[0])
    else FindMilestone(ms[1..], id)
  }

  /** The milestone row a `LEFT OUTER JOIN milestones` pairs with `r`:
      none when `r` has no milestone id or the id does not resolve. */
  function JoinedMilestone(db: Db, r: Issuable): Option<Milestone>
  {
    match r.milestoneId
    case None => None
    case Some(id) => FindMilestone(db.milestones, id)
  }

  /** `milestones.due_date` in that joined row (NULL without a row). */
  function JoinedDueDate(db: Db, r: Issuable): Option<Day>
  {
    match JoinedMilestone(db, r)
    case None => None
    case Some(m) => m.dueDate
  }

  // ---- notes and votes ---------------------------------------------------

  /** An award note on `r` whose emoji name is exactly `emoji`. */
  predicate IsAwardOn(className: string, id: int, emoji: string, n: Note)
  {
    n.noteableType == className && n.noteableId == id && n.isAward && n.note == emoji
  }

  /** Number of award notes on `r` named `emoji`. */
  function AwardCount(db: Db, r: Issuable, emoji: string): (n: nat)
    ensures n <= |db.notes|
  {
    Count(db.notes, (n: Note) => IsAwardOn(db.className, r.id, emoji, n))
  }

  const ThumbsUp := "thumbsup"
  const ThumbsDown := "thumbsdown"

  /** `upvotes`: the "thumbsup" award notes on `r`. */
  function Upvotes(db: Db, r: Issuable): nat
  {
    AwardCount(db, r, ThumbsUp)
  }

  /** `downvotes`: the "thumbsdown" award notes on `r`. */
  function Downvotes(db: Db, r: Issuable): nat
  {
    AwardCount(db, r, ThumbsDown)
  }

  /** Renaming one "thumbsup" award on `r` to any other name lowers its
      upvotes by exactly one. */
  lemma UpvoteRenamed(db: Db, r: Issuable, i: nat, name: string)
    requires i < |db.notes| && IsAwardOn(db.className, r.id, ThumbsUp, db.notes[i])
    requires name != ThumbsUp
    ensures Upvotes(db.(notes := db.notes[i := db.notes[i].(note := name)]), r) == Upvotes(db, r) - 1
  {
    var p := (n: Note) => IsAwardOn(db.className, r.id, ThumbsUp, n);
    CountReplace(db.notes, i, db.notes[i].(note := name), p);
  }

  /** Adding a note to the table raises the tally of exactly the emoji that
      note awards to `r`, by one, and leaves the others alone. */
  lemma AwardCountAddNote(db: Db, r: Issuable, emoji: string, n: Note)
    ensures AwardCount(db.(notes := db.notes + [n]), r, emoji)
            == AwardCount(db, r, emoji) + (if IsAwardOn(db.className, r.id, emoji, n) then 1 else 0)
  {
    CountAppend(db.notes, [n], (m: Note) => IsAwardOn(db.className, r.id, emoji, m));
  }

  /** A user (non-system) note on `r`. */
  predicate IsUserNoteOn(className: string, id: int, n: Note)
  {
    n.noteableType == className && n.noteableId == id && !n.system
  }

  /** `user_notes_count`: the user notes on `r`. */
  function UserNotesCount(db: Db, r: Issuable): (n: nat)
    ensures n <= |db.notes|
  {
    Count(db.notes, (m: Note) => IsUserNoteOn(db.className, r.id, m))
  }

  /** Adding a note raises `user_notes_count` of `r` by one exactly when it
      is a non-system note on `r`. */
  lemma UserNotesCountAddNote(db: Db, r: Issuable, n: Note)
    ensures UserNotesCount(db.(notes := db.notes + [n]), r)
            == UserNotesCount(db, r) + (if IsUserNoteOn(db.className, r.id, n) then 1 else 0)
  {
    CountAppend(db.notes, [n], (m: Note) => IsUserNoteOn(db.className, r.id, m));
  }

  // ---- dates -------------------------------------------------------------

  function DayOf(t: Timestamp): Day
  {
    t / SecondsPerDay
  }

  /** `today?`: `r` was created on the given day. */
  function IsToday(r: Issuable, today: Day): (b: bool)
    ensures b <==> today * SecondsPerDay <= r.createdAt < (today + 1) * SecondsPerDay
  {
    DayOf(r.createdAt) == today
  }

  /** `new?`: created today and not updated since. */
  function IsNew(r: Issuable, today: Day): (b: bool)
    ensures b ==> IsToday(r, today)
    ensures b <==> today * SecondsPerDay <= r.createdAt < (today + 1) * SecondsPerDay
                   && r.updatedAt == r.createdAt
  {
    IsToday(r, today) && r.createdAt == r.updatedAt
  }

  // ---- labels ------------------------------------------------------------

  /** The label rows `labels` with id `id` (the inner side of a join). */
  function LabelsWithId(labels: seq<Label>, id: int): (r: seq<Label>)
    ensures forall k :: 0 <= k < |r| ==> r[k].id == id && r[k] in labels
  {
    FilterMembershipAll(labels, (l: Label) => l.id == id);
    Filter(labels, (l: Label) => l.id == id)
  }

  /** The labels reached from target (`targetType`, `targetId`) through
      `label_links` INNER JOIN `labels`: one label row per matching link. */
  function LinkedLabels(links: seq<LabelLink>, labels: seq<Label>, targetType: string, targetId: int): seq<Label>
  {
    if links == [] then []
    else
      (if links[0].targetType == targetType && links[0].targetId == targetId
       then LabelsWithId(labels, links[0].labelId) else [])
      + LinkedLabels(links[1..], labels, targetType, targetId)
  }

  /** `labels` of `r`. */
  function LabelsOf(db: Db, r: Issuable): seq<Label>
  {
    LinkedLabels(db.links, db.labels, db.className, r.id)
  }

  function Titles(ls: seq<Label>): (ts: seq<string>)
    ensures |ts| == |ls|
  {
    seq(|ls|, k requires 0 <= k < |ls| => ls[k].title)
  }

  /** A string as its sequence of code points, the sort key of a title. */
  function CodePoints(s: string): seq<int>
  {
    seq(|s|, k requires 0 <= k < |s| => s[k] as int)
  }

  /** `label_names`: the titles of `r`'s labels in ascending order, one entry
      per joined label row. */
  function LabelNames(db: Db, r: Issuable): (names: seq<string>)
    ensures multiset(names) == multiset(Titles(LabelsOf(db, r)))
    ensures forall i, j :: 0 <= i < j < |names| ==> LexLe(CodePoints(names[i]), CodePoints(names[j]))
  {
    SortBy(Titles(LabelsOf(db, r)), CodePoints)
  }

  // ---- validation --------------------------------------------------------

  const MaxTitleLength := 255

  datatype ValidationError = AuthorBlank | TitleBlank | TitleTooLong

  /** The errors the validations of the concern report for `r`: the author
      must resolve to a user, the title must not be blank and must have at
      most 255 characters. */
  function Validate(db: Db, r: Issuable): (errs: seq<ValidationError>)
    ensures AuthorBlank in errs <==> r.authorId.None? || r.authorId.value !in db.users
    ensures TitleBlank in errs <==> Blank(r.title)
    ensures TitleTooLong in errs <==> |r.title| > MaxTitleLength
  {
    var blank := Blank(r.title);
    var author := if r.authorId.Some? && r.authorId.value in db.users then [] else [AuthorBlank];
    var title := if blank then [TitleBlank] else [];
    var length := if |r.title| > MaxTitleLength then [TitleTooLong] else [];
    assert forall e :: e in author + title + length <==> e in author || e in title || e in length;
    author + title + length
  }

  /** The title as stored: stripped of surrounding white space. */
  function StripTitle(r: Issuable): Issuable
  {
    r.(title := Strip(r.title))
  }

  /** Stripping the title before validation never changes whether the title
      is blank, and never makes it longer. */
  lemma StrippedTitleValidation(db: Db, r: Issuable)
    ensures TitleBlank in Validate(db, StripTitle(r)) <==> TitleBlank in Validate(db, r)
    ensures TitleTooLong in Validate(db, StripTitle(r)) ==> TitleTooLong in Validate(db, r)
  {
    StripKeepsBlank(r.title);
    StripSlice(r.title);
  }

  /** A title of one no-break space survives `strip` unchanged and is still
      rejected as blank. */
  lemma NoBreakSpaceTitleRejected(db: Db, r: Issuable)
    requires r.title == "\U{A0}"
    ensures StripTitle(r).title == r.title
    ensures TitleBlank in Validate(db, StripTitle(r))
  {
    NoBreakSpaceBlankNotStripped();
  }
}
