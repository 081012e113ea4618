/** The orderings of the Issuable concern: `recent`, the milestone due-date
    orderings, the vote orderings, the `sort` dispatch and the grouping
    columns `with_label` adds. Each ordering is a key-sorted permutation of
    its input; rows with equal keys come out in an order the SQL leaves open. */
module Orderings {
  import opened Wrappers
  import opened Seqs
  import opened KeySort
  import Records

  type Issuable = Records.Issuable
  type Db = Records.Db

  // ---- recent ------------------------------------------------------------

  function IdDescKey(x: Issuable): seq<int>
  {
    [-x.id]
  }

  /** `recent`: `ORDER BY id DESC`. */
  function Recent(rs: seq<Issuable>): (r: seq<Issuable>)
    ensures multiset(r) == multiset(rs)
    ensures forall i, j :: 0 <= i < j < |r| ==> r[i].id >= r[j].id
  {
    var r := SortBy(rs, IdDescKey);
    IdDescSorted(r);
    r
  }

  lemma IdDescSorted(r: seq<Issuable>)
    requires SortedBy(r, IdDescKey)
    ensures forall i, j :: 0 <= i < j < |r| ==> r[i].id >= r[j].id
  {
    forall i, j | 0 <= i < j < |r| ensures r[i].id >= r[j].id {
      LexLeSingle(-r[i].id, -r[j].id);
    }
  }

  // ---- milestone due date ------------------------------------------------

  /** 0: the joined milestone has a due date; 1: a milestone row without due
      date; 2: no milestone row. */
  function MilestoneRank(db: Db, x: Issuable): nat
  {
    if Records.JoinedDueDate(db, x).Some? then 0
    else if Records.JoinedMilestone(db, x).Some? then 1
    else 2
  }

  /** `milestones.due_date IS NULL, milestones.id IS NULL, milestones.due_date
      ASC|DESC`, with `false` before `true`. */
  function MilestoneKey(db: Db, asc: bool, x: Issuable): seq<int>
  {
    var due := Records.JoinedDueDate(db, x);
    [ if due.None? then 1 else 0,
      if Records.JoinedMilestone(db, x).None? then 1 else 0,
      match due
      case None => 0
      case Some(d) => if asc then d else -d ]
  }

  function MilestoneKeyFn(db: Db, asc: bool): Issuable -> seq<int>
  {
    (x: Issuable) => MilestoneKey(db, asc, x)
  }

  /** Dated rows first, then rows with an undated milestone, then rows without
      a milestone, in both directions; dated rows by due date in the requested
      direction. */
  ghost predicate MilestoneOrdered(db: Db, r: seq<Issuable>, asc: bool)
  {
    forall i, j :: 0 <= i < j < |r| ==>
      && MilestoneRank(db, r[i]) <= MilestoneRank(db, r[j])
      && (Records.JoinedDueDate(db, r[i]).Some? && Records.JoinedDueDate(db, r[j]).Some? ==>
            if asc then Records.JoinedDueDate(db, r[i]).value <= Records.JoinedDueDate(db, r[j]).value
            else Records.JoinedDueDate(db, r[i]).value >= Records.JoinedDueDate(db, r[j]).value)
  }

  lemma MilestoneKeyOrder(db: Db, asc: bool, a: Issuable, b: Issuable)
    requires LexLe(MilestoneKey(db, asc, a), MilestoneKey(db, asc, b))
    ensures MilestoneRank(db, a) <= MilestoneRank(db, b)
    ensures Records.JoinedDueDate(db, a).Some? && Records.JoinedDueDate(db, b).Some? ==>
            if asc then Records.JoinedDueDate(db, a).value <= Records.JoinedDueDate(db, b).value
            else Records.JoinedDueDate(db, a).value >= Records.JoinedDueDate(db, b).value
  {
    var ka, kb := MilestoneKey(db, asc, a), MilestoneKey(db, asc, b);
    assert ka[1..][1..] == [ka[2]] && kb[1..][1..] == [kb[2]];
    LexLeSingle(ka[2], kb[2]);
  }

  lemma MilestoneSortedOrdered(db: Db, asc: bool, r: seq<Issuable>)
    requires SortedBy(r, MilestoneKeyFn(db, asc))
    ensures MilestoneOrdered(db, r, asc)
  {
    forall i, j | 0 <= i < j < |r|
      ensures && MilestoneRank(db, r[i]) <= MilestoneRank(db, r[j])
              && (Records.JoinedDueDate(db, r[i]).Some? && Records.JoinedDueDate(db, r[j]).Some? ==>
                    if asc then Records.JoinedDueDate(db, r[i]).value <= Records.JoinedDueDate(db, r[j]).value
                    else Records.JoinedDueDate(db, r[i]).value >= Records.JoinedDueDate(db, r[j]).value)
    {
      MilestoneKeyOrder(db, asc, r[i], r[j]);
    }
  }

  /** `order_milestone_due_asc` (`asc`) and `order_milestone_due_desc`. */
  function OrderMilestoneDue(db: Db, rs: seq<Issuable>, asc: bool): (r: seq<Issuable>)
    ensures multiset(r) == multiset(rs)
    ensures MilestoneOrdered(db, r, asc)
  {
    var r := SortBy(rs, MilestoneKeyFn(db, asc));
    MilestoneSortedOrdered(db, asc, r);
    r
  }

  // ---- votes -------------------------------------------------------------

  /** The note rows `LEFT OUTER JOIN notes ON noteable_id = x.id AND
      noteable_type = class AND is_award AND note = emoji` pairs with `x`: the
      matching notes, or one all-NULL row when there is none. */
  function OuterJoinNotes(db: Db, x: Issuable, emoji: string): (rows: seq<Option<Records.Note>>)
    ensures |rows| >= 1
  {
    var m := Filter(db.notes, (n: Records.Note) => Records.IsAwardOn(db.className, x.id, emoji, n));
    if m == [] then [None] else seq(|m|, k requires 0 <= k < |m| => Some(m[k]))
  }

  /** `COUNT(notes.id)` over one group: the rows whose note side is not NULL. */
  function CountNonNull(rows: seq<Option<Records.Note>>): nat
  {
    Count(rows, (o: Option<Records.Note>) => o.Some?)
  }

  /** The outer join never drops a row (its group is never empty), and the
      count the ordering sorts by is the vote tally of the row. */
  lemma OuterJoinCount(db: Db, x: Issuable, emoji: string)
    ensures |OuterJoinNotes(db, x, emoji)| >= 1
    ensures CountNonNull(OuterJoinNotes(db, x, emoji)) == Records.AwardCount(db, x, emoji)
  {
    var rows := OuterJoinNotes(db, x, emoji);
    var p := (o: Option<Records.Note>) => o.Some?;
    if Records.AwardCount(db, x, emoji) == 0 {
      FilterSingleton(None, p);
    } else {
      CountAll(rows, p);
    }
  }

  function VoteKey(db: Db, emoji: string, x: Issuable): seq<int>
  {
    [0 - CountNonNull(OuterJoinNotes(db, x, emoji))]
  }

  function VoteKeyFn(db: Db, emoji: string): Issuable -> seq<int>
  {
    (x: Issuable) => VoteKey(db, emoji, x)
  }

  /** Vote tallies never increase along `r`. */
  ghost predicate VotesNonIncreasing(db: Db, r: seq<Issuable>, emoji: string)
  {
    forall i, j :: 0 <= i < j < |r| ==> Records.AwardCount(db, r[i], emoji) >= Records.AwardCount(db, r[j], emoji)
  }

  lemma VoteSortedNonIncreasing(db: Db, emoji: string, r: seq<Issuable>)
    requires SortedBy(r, VoteKeyFn(db, emoji))
    ensures VotesNonIncreasing(db, r, emoji)
  {
    forall i, j | 0 <= i < j < |r|
      ensures Records.AwardCount(db, r[i], emoji) >= Records.AwardCount(db, r[j], emoji)
    {
      OuterJoinCount(db, r[i], emoji);
      OuterJoinCount(db, r[j], emoji);
      LexLeSingle(0 - CountNonNull(OuterJoinNotes(db, r[i], emoji)), 0 - CountNonNull(OuterJoinNotes(db, r[j], emoji)));
    }
  }

  /** `order_votes_desc(emoji)`: group the outer join by row and order by the
      count descending. Every input row comes out exactly as often as it went
      in, those without votes included. */
  function OrderVotesDesc(db: Db, rs: seq<Issuable>, emoji: string): (r: seq<Issuable>)
    ensures multiset(r) == multiset(rs)
    ensures VotesNonIncreasing(db, r, emoji)
  {
    var r := SortBy(rs, VoteKeyFn(db, emoji));
    VoteSortedNonIncreasing(db, emoji, r);
    r
  }

  /** `order_upvotes_desc`. */
  function OrderUpvotesDesc(db: Db, rs: seq<Issuable>): (r: seq<Issuable>)
    ensures multiset(r) == multiset(rs)
    ensures forall i, j :: 0 <= i < j < |r| ==> Records.Upvotes(db, r[i]) >= Records.Upvotes(db, r[j])
  {
    OrderVotesDesc(db, rs, Records.ThumbsUp)
  }

  /** `order_downvotes_desc`. */
  function OrderDownvotesDesc(db: Db, rs: seq<Issuable>): (r: seq<Issuable>)
    ensures multiset(r) == multiset(rs)
    ensures forall i, j :: 0 <= i < j < |r| ==> Records.Downvotes(db, r[i]) >= Records.Downvotes(db, r[j])
  {
    OrderVotesDesc(db, rs, Records.ThumbsDown)
  }

  /** Three rows with 3, 0 and 1 upvotes come out as 3, 1, 0: the row without
      votes is last, not dropped. */
  lemma UpvotesScenario(db: Db, a: Issuable, b: Issuable, c: Issuable)
    requires Records.Upvotes(db, a) == 3 && Records.Upvotes(db, b) == 0 && Records.Upvotes(db, c) == 1
    ensures OrderUpvotesDesc(db, [a, b, c]) == [a, c, b]
  {
    var r := OrderUpvotesDesc(db, [a, b, c]);
    ThreeByUpvotes(db, a, b, c, r);
  }

  lemma ThreeByUpvotes(db: Db, a: Issuable, b: Issuable, c: Issuable, r: seq<Issuable>)
    requires Records.Upvotes(db, a) == 3 && Records.Upvotes(db, b) == 0 && Records.Upvotes(db, c) == 1
    requires multiset(r) == multiset([a, b, c])
    requires forall i, j :: 0 <= i < j < |r| ==> Records.Upvotes(db, r[i]) >= Records.Upvotes(db, r[j])
    ensures r == [a, c, b]
  {
    PermutationMembers(r, [a, b, c]);
    var ia :| 0 <= ia < 3 && r[ia] == a;
    var ib :| 0 <= ib < 3 && r[ib] == b;
    var ic :| 0 <= ic < 3 && r[ic] == c;
    assert ia == 0;
    assert ic == 1;
    assert ib == 2;
  }

  // ---- sort dispatch -----------------------------------------------------

  /** The `method` argument of `sort`: a String, a Symbol or nil. */
  datatype SortParam = Str(s: string) | Sym(name: string) | Nil

  /** Ruby's `to_s` on the argument. */
  function ToS(p: SortParam): string
  {
    match p
    case Str(s) => s
    case Sym(name) => name
    case Nil => ""
  }

  const DedicatedSortKeys := {"milestone_due_asc", "milestone_due_desc", "downvotes_desc", "upvotes_desc"}

  /** Where `sort` sends a key. */
  datatype Route = MilestoneDue(asc: bool) | VotesDesc(emoji: string) | Fallback

  function RouteOf(key: SortParam): Route
  {
    match ToS(key)
    case "milestone_due_asc" => MilestoneDue(true)
    case "milestone_due_desc" => MilestoneDue(false)
    case "downvotes_desc" => VotesDesc(Records.ThumbsDown)
    case "upvotes_desc" => VotesDesc(Records.ThumbsUp)
    case _ => Fallback
  }

  /** `sort(method)`, with `key` for `method`: the four dedicated keys give their orderings, any other
      key is passed unchanged to `order_by`, which is a parameter here. No key
      is an error. */
  function Sort(db: Db, rs: seq<Issuable>, key: SortParam,
                orderBy: (SortParam, seq<Issuable>) -> seq<Issuable>): (r: seq<Issuable>)
    ensures ToS(key) == "milestone_due_asc" ==> multiset(r) == multiset(rs) && MilestoneOrdered(db, r, true)
    ensures ToS(key) == "milestone_due_desc" ==> multiset(r) == multiset(rs) && MilestoneOrdered(db, r, false)
    ensures ToS(key) == "downvotes_desc" ==> multiset(r) == multiset(rs) && VotesNonIncreasing(db, r, Records.ThumbsDown)
    ensures ToS(key) == "upvotes_desc" ==> multiset(r) == multiset(rs) && VotesNonIncreasing(db, r, Records.ThumbsUp)
    ensures ToS(key) !in DedicatedSortKeys ==> r == orderBy(key, rs)
  {
    var k := ToS(key);
    if k == "milestone_due_asc" then OrderMilestoneDue(db, rs, true)
    else if k == "milestone_due_desc" then OrderMilestoneDue(db, rs, false)
    else if k == "downvotes_desc" then OrderDownvotesDesc(db, rs)
    else if k == "upvotes_desc" then OrderUpvotesDesc(db, rs)
    else orderBy(key, rs)
  }

  // ---- grouping columns --------------------------------------------------

  datatype Column = IssuableId | MilestoneId | MilestoneDueDate

  /** `grouping_columns(sort)`: the issuable id, plus the milestone id and due
      date when `sort` is one of the two milestone keys as a String (the
      comparison is with `include?`, without `to_s`). */
  function GroupingColumns(sort: SortParam): (cols: seq<Column>)
    ensures |cols| >= 1 && cols[0] == IssuableId
    ensures MilestoneId in cols <==> sort.Str? && sort.s in {"milestone_due_desc", "milestone_due_asc"}
    ensures MilestoneDueDate in cols <==> MilestoneId in cols
    ensures Distinct(cols)
  {
    if sort.Str? && sort.s in ["milestone_due_desc", "milestone_due_asc"]
    then [IssuableId, MilestoneId, MilestoneDueDate]
    else [IssuableId]
  }

  /** For a String key, the milestone columns are grouped on exactly when
      `sort` orders by milestone. A Symbol key routes the same way in `sort`
      but adds no milestone columns. */
  lemma GroupingColumnsFollowSort(s: string)
    ensures MilestoneId in GroupingColumns(Str(s)) <==> RouteOf(Str(s)).MilestoneDue?
    ensures GroupingColumns(Sym(s)) == [IssuableId]
  {
  }
}
