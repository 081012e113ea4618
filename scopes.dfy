/** The filtering scopes and class methods of the Issuable concern. Each takes
    the relation built so far (a sequence of rows) and returns the rows that
    satisfy one more condition; a `WHERE` keeps row order and multiplicity,
    which `Seqs.Selects` and `Seqs.FilterAppend` state. */
module Scopes {
  import opened Wrappers
  import opened Seqs
  import opened Text
  import Records

  type Issuable = Records.Issuable
  type Db = Records.Db
  type UserId = Records.UserId

  // ---- ownership, project and milestone ---------------------------------

  /** `authored(user)`: `author_id = user`, or `author_id IS NULL` for nil. */
  function Authored(rs: seq<Issuable>, user: Option<UserId>): (r: seq<Issuable>)
    ensures Selects(r, rs, (x: Issuable) => x.authorId == user)
  {
    FilterMultiset(rs, (x: Issuable) => x.authorId == user);
    Filter(rs, (x: Issuable) => x.authorId == user)
  }

  /** `assigned_to(u)`: assigned to the user `u`. */
  function AssignedTo(rs: seq<Issuable>, u: UserId): (r: seq<Issuable>)
    ensures Selects(r, rs, (x: Issuable) => x.assigneeId == Some(u))
  {
    FilterMultiset(rs, (x: Issuable) => x.assigneeId == Some(u));
    Filter(rs, (x: Issuable) => x.assigneeId == Some(u))
  }

  /** `assigned`: some assignee id is set. */
  function Assigned(rs: seq<Issuable>): (r: seq<Issuable>)
    ensures Selects(r, rs, (x: Issuable) => Records.IsAssigned(x))
  {
    FilterMultiset(rs, (x: Issuable) => x.assigneeId.Some?);
    Filter(rs, (x: Issuable) => x.assigneeId.Some?)
  }

  /** `unassigned`: no assignee id. */
  function Unassigned(rs: seq<Issuable>): (r: seq<Issuable>)
    ensures Selects(r, rs, (x: Issuable) => !Records.IsAssigned(x))
  {
    FilterMultiset(rs, (x: Issuable) => x.assigneeId.None?);
    Filter(rs, (x: Issuable) => x.assigneeId.None?)
  }

  /** `assigned` and `unassigned` split every relation in two. */
  lemma AssignedPartition(rs: seq<Issuable>)
    ensures multiset(Assigned(rs)) + multiset(Unassigned(rs)) == multiset(rs)
  {
    var a, u := Assigned(rs), Unassigned(rs);
    assert forall x :: (multiset(a) + multiset(u))[x] == multiset(rs)[x];
  }

  /** `is_assigned?` agrees with the scopes: a row of the relation is in
      `assigned` exactly when it is assigned, and in `unassigned` exactly when
      it is not. */
  lemma IsAssignedMatchesScopes(rs: seq<Issuable>, x: Issuable)
    ensures x in Assigned(rs) <==> x in rs && Records.IsAssigned(x)
    ensures x in Unassigned(rs) <==> x in rs && !Records.IsAssigned(x)
  {
    var a, u := Assigned(rs), Unassigned(rs);
    assert x in a <==> multiset(a)[x] > 0;
    assert x in u <==> multiset(u)[x] > 0;
    assert x in rs <==> multiset(rs)[x] > 0;
  }

  /** `of_projects(ids)`: the project id is one of `ids`. */
  function OfProjects(rs: seq<Issuable>, ids: set<int>): (r: seq<Issuable>)
    ensures Selects(r, rs, (x: Issuable) => x.projectId in ids)
  {
    FilterMultiset(rs, (x: Issuable) => x.projectId in ids);
    Filter(rs, (x: Issuable) => x.projectId in ids)
  }

  /** `of_milestones(ids)`: the milestone id is one of `ids`; a nil among the
      ids selects the rows without a milestone (`IS NULL`). */
  function OfMilestones(rs: seq<Issuable>, ids: set<Option<int>>): (r: seq<Issuable>)
    ensures Selects(r, rs, (x: Issuable) => x.milestoneId in ids)
  {
    FilterMultiset(rs, (x: Issuable) => x.milestoneId in ids);
    Filter(rs, (x: Issuable) => x.milestoneId in ids)
  }

  /** The title of the milestone row joined to `x` equals `title`, where a
      missing row has a NULL title. */
  predicate MilestoneTitled(db: Db, x: Issuable, title: Option<string>)
  {
    match Records.JoinedMilestone(db, x)
    case None => title == None
    case Some(m) => title == Some(m.title)
  }

  /** `with_milestone(title)`: left-join milestones and keep the rows whose
      milestone has that title; a nil title keeps the rows with no milestone
      row. */
  function WithMilestone(db: Db, rs: seq<Issuable>, title: Option<string>): (r: seq<Issuable>)
    ensures Selects(r, rs, (x: Issuable) => MilestoneTitled(db, x, title))
  {
    FilterMultiset(rs, (x: Issuable) => MilestoneTitled(db, x, title));
    Filter(rs, (x: Issuable) => MilestoneTitled(db, x, title))
  }

  // ---- state -------------------------------------------------------------

  /** `opened`: state opened or reopened, that is, `open?`. */
  function Opened(rs: seq<Issuable>): (r: seq<Issuable>)
    ensures Selects(r, rs, (x: Issuable) => Records.IsOpen(x))
  {
    FilterMultiset(rs, (x: Issuable) => x.state in {Records.Opened, Records.Reopened});
    Filter(rs, (x: Issuable) => x.state in {Records.Opened, Records.Reopened})
  }

  /** `only_opened`: state opened. */
  function OnlyOpened(rs: seq<Issuable>): (r: seq<Issuable>)
    ensures Selects(r, rs, (x: Issuable) => x.state == Records.Opened)
  {
    FilterMultiset(rs, (x: Issuable) => x.state == Records.Opened);
    Filter(rs, (x: Issuable) => x.state == Records.Opened)
  }

  /** `only_reopened`: state reopened. */
  function OnlyReopened(rs: seq<Issuable>): (r: seq<Issuable>)
    ensures Selects(r, rs, (x: Issuable) => x.state == Records.Reopened)
  {
    FilterMultiset(rs, (x: Issuable) => x.state == Records.Reopened);
    Filter(rs, (x: Issuable) => x.state == Records.Reopened)
  }

  /** `closed`: state closed, that is, not `open?`. */
  function Closed(rs: seq<Issuable>): (r: seq<Issuable>)
    ensures Selects(r, rs, (x: Issuable) => !Records.IsOpen(x))
  {
    FilterMultiset(rs, (x: Issuable) => x.state == Records.Closed);
    Filter(rs, (x: Issuable) => x.state == Records.Closed)
  }

  /** The state scopes partition every relation: `only_opened`,
      `only_reopened` and `closed` together hold each row exactly as often as
      the relation does, and `opened` is the first two together. */
  lemma StateScopesPartition(rs: seq<Issuable>)
    ensures multiset(OnlyOpened(rs)) + multiset(OnlyReopened(rs)) + multiset(Closed(rs)) == multiset(rs)
    ensures multiset(Opened(rs)) == multiset(OnlyOpened(rs)) + multiset(OnlyReopened(rs))
  {
    var o, ro, c, op := OnlyOpened(rs), OnlyReopened(rs), Closed(rs), Opened(rs);
    forall x ensures (multiset(o) + multiset(ro) + multiset(c))[x] == multiset(rs)[x]
               && multiset(op)[x] == (multiset(o) + multiset(ro))[x]
    {
      var n := multiset(rs)[x];
      assert multiset(o)[x] == if x.state == Records.Opened then n else 0;
      assert multiset(ro)[x] == if x.state == Records.Reopened then n else 0;
      assert multiset(c)[x] == if x.state == Records.Closed then n else 0;
      assert multiset(op)[x] == if x.state != Records.Closed then n else 0;
    }
  }

  // ---- text search -------------------------------------------------------

  /** `search(query)`: the title contains the query, ignoring case. */
  function Search(rs: seq<Issuable>, query: string): (r: seq<Issuable>)
    ensures Selects(r, rs, (x: Issuable) => ContainsIgnoringCase(x.title, query))
  {
    FilterMultiset(rs, (x: Issuable) => ContainsIgnoringCase(x.title, query));
    Filter(rs, (x: Issuable) => ContainsIgnoringCase(x.title, query))
  }

  /** The row's description is present and contains the query, ignoring case;
      a NULL description matches nothing. */
  predicate DescriptionMatches(x: Issuable, query: string)
  {
    match x.description
    case None => false
    case Some(d) => ContainsIgnoringCase(d, query)
  }

  /** `full_search(query)`: the title or the description contains the query,
      ignoring case. */
  function FullSearch(rs: seq<Issuable>, query: string): (r: seq<Issuable>)
    ensures Selects(r, rs, (x: Issuable) => ContainsIgnoringCase(x.title, query) || DescriptionMatches(x, query))
  {
    FilterMultiset(rs, (x: Issuable) => ContainsIgnoringCase(x.title, query) || DescriptionMatches(x, query));
    Filter(rs, (x: Issuable) => ContainsIgnoringCase(x.title, query) || DescriptionMatches(x, query))
  }

  /** Every row `search` keeps, `full_search` keeps as well, and as often. */
  lemma SearchWithinFullSearch(rs: seq<Issuable>, query: string)
    ensures multiset(Search(rs, query)) <= multiset(FullSearch(rs, query))
  {
    var s, f := Search(rs, query), FullSearch(rs, query);
    assert forall x :: multiset(s)[x] <= multiset(f)[x];
  }

  /** An empty query (`'%%'`, which is also what a nil query interpolates
      to) is no filter at all. */
  lemma SearchEmptyQuery(rs: seq<Issuable>)
    ensures Search(rs, "") == rs
    ensures FullSearch(rs, "") == rs
  {
    forall k | 0 <= k < |rs| ensures ContainsIgnoringCase(rs[k].title, "") {
      assert IsPrefix(Lower(""), Lower(rs[k].title));
    }
    FilterAll(rs, (x: Issuable) => ContainsIgnoringCase(x.title, ""));
    FilterAll(rs, (x: Issuable) => ContainsIgnoringCase(x.title, "") || DescriptionMatches(x, ""));
  }

  /** "Fix login bug" contains "login" and "LOGIN" ignoring case, and does
      not contain "signup". */
  lemma LoginTitleMatches()
    ensures ContainsIgnoringCase("Fix login bug", "login")
    ensures ContainsIgnoringCase("Fix login bug", "LOGIN")
    ensures !ContainsIgnoringCase("Fix login bug", "signup")
  {
    var t := "fix login bug";
    assert Lower("Fix login bug") == t;
    assert Lower("login") == "login";
    assert Lower("LOGIN") == "login";
    assert Lower("signup") == "signup";
    ContainsAt(t, "login");
    assert OccursAt(t, "login", 4);
    LoginTitleLacksSignup();
  }

  lemma LoginTitleLacksSignup()
    ensures !Contains("fix login bug", "signup")
  {
    assert 's' !in "fix login bug";
    NotContainsFirst("fix login bug", "signup");
  }

  /** A record titled "Fix login bug" is found by "login" and by "LOGIN",
      and not by "signup". */
  lemma SearchScenario(x: Issuable)
    requires x.title == "Fix login bug"
    ensures Search([x], "login") == [x]
    ensures Search([x], "LOGIN") == [x]
    ensures Search([x], "signup") == []
  {
    LoginTitleMatches();
    FilterSingleton(x, (y: Issuable) => ContainsIgnoringCase(y.title, "login"));
    FilterSingleton(x, (y: Issuable) => ContainsIgnoringCase(y.title, "LOGIN"));
    FilterSingleton(x, (y: Issuable) => ContainsIgnoringCase(y.title, "signup"));
  }

  // ---- labels ------------------------------------------------------------

  /** The distinct titles of `x`'s labels. */
  function LabelTitleSet(db: Db, x: Issuable): set<string>
  {
    set l | l in Records.LabelsOf(db, x) :: l.title
  }

  /** The distinct titles of `x`'s labels that are among `titles`:
      `COUNT(DISTINCT labels.title)` after `WHERE labels.title IN titles`. */
  function MatchedTitles(db: Db, x: Issuable, titles: seq<string>): (m: set<string>)
    ensures m <= Elements(titles) && m <= LabelTitleSet(db, x)
  {
    set l | l in Records.LabelsOf(db, x) && l.title in titles :: l.title
  }

  /** Number of joined label rows of `x` whose title is among `titles`. */
  function MatchingLabelRows(db: Db, x: Issuable, titles: seq<string>): nat
  {
    Count(Records.LabelsOf(db, x), (l: Records.Label) => l.title in titles)
  }

  /** `joins(:labels).where(labels: { title: titles })`: each row once per
      joined label whose title is among `titles`. */
  function JoinLabelRows(db: Db, rs: seq<Issuable>, titles: seq<string>): seq<Issuable>
  {
    Replicate(rs, (x: Issuable) => MatchingLabelRows(db, x, titles))
  }

  /** Every row of the join comes from the relation, once per matching label. */
  lemma JoinLabelRowsMultiset(db: Db, rs: seq<Issuable>, titles: seq<string>)
    ensures forall x :: multiset(JoinLabelRows(db, rs, titles))[x] == multiset(rs)[x] * MatchingLabelRows(db, x, titles)
  {
    forall x ensures multiset(JoinLabelRows(db, rs, titles))[x] == multiset(rs)[x] * MatchingLabelRows(db, x, titles) {
      ReplicateCount(rs, (x: Issuable) => MatchingLabelRows(db, x, titles), x);
    }
  }

  /** `x` carries every title of `titles`. */
  predicate HasAllTitles(db: Db, x: Issuable, titles: seq<string>)
  {
    forall k :: 0 <= k < |titles| ==> titles[k] in LabelTitleSet(db, x)
  }

  /** `with_label(titles, sort)`: with more than one title, group by the row
      and keep the groups whose count of distinct matching titles equals the
      number of titles asked for; otherwise the plain join. The `sort`
      argument only adds milestone columns to the grouping. Provided the
      relation is also left-joined to milestones, as `sort` does, those
      columns cannot split one row's group, so `sort` does not change the
      result; without that join the database rejects the query. */
  function WithLabel(db: Db, rs: seq<Issuable>, titles: seq<string>): (r: seq<Issuable>)
    ensures |titles| > 1 ==> Selects(r, rs, (x: Issuable) => |MatchedTitles(db, x, titles)| == |titles|)
    ensures |titles| <= 1 ==> forall x :: multiset(r)[x] == multiset(rs)[x] * MatchingLabelRows(db, x, titles)
  {
    if |titles| > 1 then
      FilterMultiset(rs, (x: Issuable) => |MatchedTitles(db, x, titles)| == |titles|);
      Filter(rs, (x: Issuable) => |MatchedTitles(db, x, titles)| == |titles|)
    else
      JoinLabelRowsMultiset(db, rs, titles);
      JoinLabelRows(db, rs, titles)
  }

  /** With several distinct titles, a row is kept exactly when it carries all
      of them (all-of, not any-of), as often as it occurs. */
  lemma {:induction false} WithLabelAllOf(db: Db, rs: seq<Issuable>, titles: seq<string>)
    requires |titles| > 1 && Distinct(titles)
    ensures Selects(WithLabel(db, rs, titles), rs, (x: Issuable) => HasAllTitles(db, x, titles))
  {
    ElementsCard(titles);
    forall x: Issuable ensures |MatchedTitles(db, x, titles)| == |titles| <==> HasAllTitles(db, x, titles) {
      var m := MatchedTitles(db, x, titles);
      SubsetCard(m, Elements(titles));
      if HasAllTitles(db, x, titles) {
        forall t | t in Elements(titles) ensures t in m {
          var k :| 0 <= k < |titles| && titles[k] == t;
          assert t in LabelTitleSet(db, x);
          var l :| l in Records.LabelsOf(db, x) && l.title == t;
        }
        assert m == Elements(titles);
      }
      if |m| == |titles| {
        assert m == Elements(titles);
        forall k | 0 <= k < |titles| ensures titles[k] in LabelTitleSet(db, x) {
          assert titles[k] in m;
        }
      }
    }
  }

  /** With several titles of which two are equal, nothing matches: the count
      of distinct titles can never reach the length of the list. */
  lemma WithLabelDuplicatesMatchNothing(db: Db, rs: seq<Issuable>, titles: seq<string>)
    requires |titles| > 1 && !Distinct(titles)
    ensures WithLabel(db, rs, titles) == []
  {
    ElementsCard(titles);
    forall k | 0 <= k < |rs| ensures |MatchedTitles(db, rs[k], titles)| != |titles| {
      SubsetCard(MatchedTitles(db, rs[k], titles), Elements(titles));
    }
    FilterNone(rs, (x: Issuable) => |MatchedTitles(db, x, titles)| == |titles|);
  }

  /** With one title, a row is kept exactly when it carries a label of that
      title, once per such label. */
  lemma WithLabelSingle(db: Db, rs: seq<Issuable>, title: string, x: Issuable)
    ensures x in WithLabel(db, rs, [title]) <==> x in rs && title in LabelTitleSet(db, x)
  {
    var r := WithLabel(db, rs, [title]);
    var ls := Records.LabelsOf(db, x);
    var p := (l: Records.Label) => l.title in [title];
    assert multiset(r)[x] == multiset(rs)[x] * MatchingLabelRows(db, x, [title]);
    assert x in r <==> multiset(r)[x] > 0;
    assert x in rs <==> multiset(rs)[x] > 0;
    MultPositive(multiset(rs)[x], MatchingLabelRows(db, x, [title]));
    assert MatchingLabelRows(db, x, [title]) > 0 <==> title in LabelTitleSet(db, x) by {
      FilterMembershipAll(ls, p);
      if title in LabelTitleSet(db, x) {
        var l :| l in ls && l.title == title;
        assert l in Filter(ls, p);
      }
      if MatchingLabelRows(db, x, [title]) > 0 {
        assert Filter(ls, p)[0] in ls;
      }
    }
  }

  /** An empty title list is not "no filter": the join matches no row. */
  lemma WithLabelEmptyMatchesNothing(db: Db, rs: seq<Issuable>)
    ensures WithLabel(db, rs, []) == []
  {
    var r := WithLabel(db, rs, []);
    forall x ensures MatchingLabelRows(db, x, []) == 0 {
      FilterNone(Records.LabelsOf(db, x), (l: Records.Label) => l.title in []);
    }
    assert forall x :: multiset(r)[x] == 0;
    assert multiset(r) == multiset{};
    assert |r| == |multiset(r)|;
  }

  /** A label link from `db`'s issuable class to `x`. */
  predicate HasLabelLink(db: Db, x: Issuable)
  {
    exists k :: 0 <= k < |db.links| && db.links[k].targetType == db.className && db.links[k].targetId == x.id
  }

  /** `without_label`: left-join label links and keep the rows that found no
      link. */
  function WithoutLabel(db: Db, rs: seq<Issuable>): (r: seq<Issuable>)
    ensures Selects(r, rs, (x: Issuable) => !HasLabelLink(db, x))
  {
    FilterMultiset(rs, (x: Issuable) => !HasLabelLink(db, x));
    Filter(rs, (x: Issuable) => !HasLabelLink(db, x))
  }

  /** A row without label links has no labels. */
  lemma {:induction false} NoLinksNoLabels(links: seq<Records.LabelLink>, labels: seq<Records.Label>, t: string, id: int)
    requires forall k :: 0 <= k < |links| ==> !(links[k].targetType == t && links[k].targetId == id)
    ensures Records.LinkedLabels(links, labels, t, id) == []
  {
    if links != [] {
      NoLinksNoLabels(links[1..], labels, t, id);
    }
  }

  /** Every row `without_label` keeps has no labels at all. */
  lemma WithoutLabelHasNoLabels(db: Db, rs: seq<Issuable>, x: Issuable)
    requires x in WithoutLabel(db, rs)
    ensures Records.LabelsOf(db, x) == []
  {
    var r := WithoutLabel(db, rs);
    assert multiset(r)[x] > 0;
    NoLinksNoLabels(db.links, db.labels, db.className, x.id);
  }
}
