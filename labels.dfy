/** `add_labels_by_names` and `remove_labels`: the two operations of the
    Issuable concern that write to the label tables. The pure functions state
    what one call does to the tables; `LabelStore` performs it in place. */
module Labels {
  import opened Wrappers
  import opened Seqs
  import opened Text
  import Records

  type Label = Records.Label
  type LabelLink = Records.LabelLink
  type Issuable = Records.Issuable

  /** `Label::DEFAULT_COLOR`. */
  const DefaultColor := "#428BCA"

  /** The `labels` and `label_links` tables, with the id the next created
      label receives. */
  datatype LabelTables = LabelTables(labels: seq<Label>, links: seq<LabelLink>, nextLabelId: int)

  /** Label ids are distinct and below `nextLabelId`, and no project has two
      labels with one title. */
  predicate Consistent(t: LabelTables)
  {
    && (forall i, j :: 0 <= i < j < |t.labels| ==> t.labels[i].id != t.labels[j].id)
    && (forall i, j :: 0 <= i < j < |t.labels| && t.labels[i].projectId == t.labels[j].projectId ==>
          t.labels[i].title != t.labels[j].title)
    && (forall i :: 0 <= i < |t.labels| ==> t.labels[i].id < t.nextLabelId)
  }

  /** The first label of `project` titled `title`. */
  function FindProjectLabel(labels: seq<Label>, project: int, title: string): (r: Option<Label>)
    ensures r.Some? ==> r.value in labels && r.value.projectId == project && r.value.title == title
    ensures r.None? ==> forall k :: 0 <= k < |labels| ==> !(labels[k].projectId == project && labels[k].title == title)
  {
    if labels == [] then None
    else if labels[0].projectId == project && labels[0].title == title then Some(labels[0])
    else FindProjectLabel(labels[1..], project, title)
  }

  /** In consistent tables a project label is found by its title. */
  lemma FindUnique(t: LabelTables, l: Label)
    requires Consistent(t) && l in t.labels
    ensures FindProjectLabel(t.labels, l.projectId, l.title) == Some(l)
  {
    var f := FindProjectLabel(t.labels, l.projectId, l.title);
    var i :| 0 <= i < |t.labels| && t.labels[i] == l;
    var j :| 0 <= j < |t.labels| && t.labels[j] == f.value;
  }

  /** `project.labels.create_with(color: DEFAULT_COLOR).find_or_create_by(title: title)`:
      the project's label with that title, created with the default color
      when there is none. */
  function FindOrCreate(t: LabelTables, project: int, title: string): (res: (LabelTables, Label))
    ensures res.1 in res.0.labels && res.1.projectId == project && res.1.title == title
    ensures res.0.links == t.links
    ensures t.labels <= res.0.labels && |res.0.labels| <= |t.labels| + 1
    ensures |res.0.labels| == |t.labels| + 1 <==> FindProjectLabel(t.labels, project, title).None?
    ensures |res.0.labels| == |t.labels| + 1 ==> res.0.labels[|t.labels|] == Records.Label(t.nextLabelId, project, title, DefaultColor)
  {
    match FindProjectLabel(t.labels, project, title)
    case Some(l) => (t, l)
    case None =>
      var l := Records.Label(t.nextLabelId, project, title, DefaultColor);
      (t.(labels := t.labels + [l], nextLabelId := t.nextLabelId + 1), l)
  }

  /** Finding or creating a label keeps the tables consistent. */
  lemma FindOrCreateConsistent(t: LabelTables, project: int, title: string)
    requires Consistent(t)
    ensures Consistent(FindOrCreate(t, project, title).0)
  {
  }

  /** One step of the loop: find or create the label titled `title` and
      append a link from the target to it, without looking for an existing
      link. */
  function AttachOne(t: LabelTables, project: int, targetType: string, targetId: int, title: string): LabelTables
  {
    var found := FindOrCreate(t, project, title);
    found.0.(links := found.0.links + [Records.LabelLink(found.1.id, targetType, targetId)])
  }

  /** The tables after attaching the labels titled `titles`, in order, to the
      issuable of `project` identified by (`targetType`, `targetId`). */
  function AttachByTitles(t: LabelTables, project: int, targetType: string, targetId: int, titles: seq<string>): LabelTables
    decreases |titles|
  {
    if titles == [] then t
    else AttachOne(AttachByTitles(t, project, targetType, targetId, titles[..|titles| - 1]),
                   project, targetType, targetId, titles[|titles| - 1])
  }

  /** Each name with its surrounding white space cut off. */
  function StrippedNames(names: seq<string>): (r: seq<string>)
    ensures |r| == |names|
    ensures forall k :: 0 <= k < |names| ==> r[k] == Strip(names[k])
  {
    seq(|names|, k requires 0 <= k < |names| => Strip(names[k]))
  }

  /** The tables after `add_labels_by_names(names)`: every name is stripped
      before its label is looked up or created. */
  function AttachByNames(t: LabelTables, project: int, targetType: string, targetId: int, names: seq<string>): LabelTables
  {
    AttachByTitles(t, project, targetType, targetId, StrippedNames(names))
  }

  /** Attaching labels never gives two labels of a project one title, nor two
      labels one id. */
  lemma {:induction false} AttachByTitlesConsistent(t: LabelTables, project: int, targetType: string, targetId: int, titles: seq<string>)
    requires Consistent(t)
    ensures Consistent(AttachByTitles(t, project, targetType, targetId, titles))
  {
    if titles != [] {
      var n := |titles| - 1;
      var p := AttachByTitles(t, project, targetType, targetId, titles[..n]);
      AttachByTitlesConsistent(t, project, targetType, targetId, titles[..n]);
      FindOrCreateConsistent(p, project, titles[n]);
    }
  }

  /** What `add_labels_by_names` promises of the labels: existing labels are
      untouched, and labels are created only for requested titles the project
      lacked, with the default color. */
  ghost predicate CreatedAsNamed(t: LabelTables, u: LabelTables, project: int, titles: seq<string>)
  {
    && t.labels <= u.labels
    && (forall k :: |t.labels| <= k < |u.labels| ==>
          && u.labels[k].projectId == project
          && u.labels[k].color == DefaultColor
          && u.labels[k].title in titles
          && FindProjectLabel(t.labels, project, u.labels[k].title).None?)
  }

  /** What `add_labels_by_names` promises of the links: one link per title is
      appended, in order, to the project label with that title. */
  ghost predicate LinkedAsNamed(t: LabelTables, u: LabelTables, project: int, targetType: string, targetId: int, titles: seq<string>)
  {
    && |u.links| == |t.links| + |titles|
    && t.links <= u.links
    && (forall k :: 0 <= k < |titles| ==> LinksTo(u, u.links[|t.links| + k], project, titles[k], targetType, targetId))
  }

  /** `link` goes from the target to the label of `project` titled `title`. */
  ghost predicate LinksTo(u: LabelTables, link: LabelLink, project: int, title: string, targetType: string, targetId: int)
  {
    && link.targetType == targetType
    && link.targetId == targetId
    && FindProjectLabel(u.labels, project, title).Some?
    && link.labelId == FindProjectLabel(u.labels, project, title).value.id
  }

  /** The label created for the last title is new to the project. */
  lemma CreatedLast(t: LabelTables, p: LabelTables, project: int, title: string)
    requires t.labels <= p.labels
    ensures var q := FindOrCreate(p, project, title).0;
            |q.labels| == |p.labels| + 1 ==> FindProjectLabel(t.labels, project, title).None?
  {
    var q := FindOrCreate(p, project, title).0;
    if |q.labels| == |p.labels| + 1 {
      forall i | 0 <= i < |t.labels| ensures !(t.labels[i].projectId == project && t.labels[i].title == title) {
        assert t.labels[i] == p.labels[i];
      }
    }
  }

  lemma {:induction false} AttachByTitlesCreates(t: LabelTables, project: int, targetType: string, targetId: int, titles: seq<string>)
    ensures CreatedAsNamed(t, AttachByTitles(t, project, targetType, targetId, titles), project, titles)
  {
    if titles != [] {
      var n := |titles| - 1;
      var init := titles[..n];
      var p := AttachByTitles(t, project, targetType, targetId, init);
      AttachByTitlesCreates(t, project, targetType, targetId, init);
      var title := titles[n];
      var q := FindOrCreate(p, project, title).0;
      CreatedLast(t, p, project, title);
      var u := AttachByTitles(t, project, targetType, targetId, titles);
      assert u.labels == q.labels;
      forall k | |t.labels| <= k < |u.labels|
        ensures && u.labels[k].projectId == project
                && u.labels[k].color == DefaultColor
                && u.labels[k].title in titles
                && FindProjectLabel(t.labels, project, u.labels[k].title).None?
      {
        if k < |p.labels| {
          assert u.labels[k] == p.labels[k];
          assert p.labels[k].title in init;
        } else {
          assert u.labels[k] == Records.Label(p.nextLabelId, project, title, DefaultColor);
        }
      }
    }
  }

  /** A link that points at a project label keeps pointing at it when labels
      are only appended. */
  lemma LinksToGrows(p: LabelTables, u: LabelTables, link: LabelLink, project: int, title: string, targetType: string, targetId: int)
    requires Consistent(u) && p.labels <= u.labels
    requires LinksTo(p, link, project, title, targetType, targetId)
    ensures LinksTo(u, link, project, title, targetType, targetId)
  {
    var l := FindProjectLabel(p.labels, project, title).value;
    assert l in u.labels;
    FindUnique(u, l);
  }

  lemma {:induction false} AttachByTitlesLinks(t: LabelTables, project: int, targetType: string, targetId: int, titles: seq<string>)
    requires Consistent(t)
    ensures LinkedAsNamed(t, AttachByTitles(t, project, targetType, targetId, titles), project, targetType, targetId, titles)
  {
    if titles != [] {
      var n := |titles| - 1;
      var init := titles[..n];
      var p := AttachByTitles(t, project, targetType, targetId, init);
      AttachByTitlesLinks(t, project, targetType, targetId, init);
      AttachByTitlesConsistent(t, project, targetType, targetId, titles);
      var found := FindOrCreate(p, project, titles[n]);
      var u := AttachByTitles(t, project, targetType, targetId, titles);
      assert u == found.0.(links := found.0.links + [Records.LabelLink(found.1.id, targetType, targetId)]);
      forall k | 0 <= k < |titles|
        ensures LinksTo(u, u.links[|t.links| + k], project, titles[k], targetType, targetId)
      {
        if k < n {
          assert titles[k] == init[k];
          assert u.links[|t.links| + k] == p.links[|t.links| + k];
          LinksToGrows(p, u, p.links[|t.links| + k], project, titles[k], targetType, targetId);
        } else {
          FindUnique(u, found.1);
        }
      }
    }
  }

  /** `add_labels_by_names` keeps every existing label and link, creates
      labels only for stripped names the project lacked, and links the
      issuable once per name to the project label with that stripped title. */
  lemma AttachByNamesAsNamed(t: LabelTables, project: int, targetType: string, targetId: int, names: seq<string>)
    requires Consistent(t)
    ensures var u := AttachByNames(t, project, targetType, targetId, names);
            && Consistent(u)
            && CreatedAsNamed(t, u, project, StrippedNames(names))
            && LinkedAsNamed(t, u, project, targetType, targetId, StrippedNames(names))
  {
    AttachByTitlesConsistent(t, project, targetType, targetId, StrippedNames(names));
    AttachByTitlesCreates(t, project, targetType, targetId, StrippedNames(names));
    AttachByTitlesLinks(t, project, targetType, targetId, StrippedNames(names));
  }

  /** Adding "x", "x" and " x " to a fresh project creates one label "x" and
      appends three links to it: the label is found again, the link is not. */
  lemma AttachRepeatedName(project: int, targetType: string, targetId: int)
    ensures var u := AttachByNames(LabelTables([], [], 1), project, targetType, targetId, ["x", "x", " x "]);
            && u.labels == [Records.Label(1, project, "x", DefaultColor)]
            && u.links == [Records.LabelLink(1, targetType, targetId),
                           Records.LabelLink(1, targetType, targetId),
                           Records.LabelLink(1, targetType, targetId)]
  {
    var names := ["x", "x", " x "];
    StripScenario();
    var titles := StrippedNames(names);
    assert titles == ["x", "x", "x"];
    AttachThreeX(project, targetType, targetId);
  }

  lemma StripScenario()
    ensures Strip("x") == "x" && Strip(" x ") == "x"
  {
    assert StripLeading(" x ") == "x ";
    assert StripTrailing("x ") == "x";
  }

  lemma AttachThreeX(project: int, targetType: string, targetId: int)
    ensures var u := AttachByTitles(LabelTables([], [], 1), project, targetType, targetId, ["x", "x", "x"]);
            && u.labels == [Records.Label(1, project, "x", DefaultColor)]
            && u.links == [Records.LabelLink(1, targetType, targetId),
                           Records.LabelLink(1, targetType, targetId),
                           Records.LabelLink(1, targetType, targetId)]
  {
    var t0 := LabelTables([], [], 1);
    var l := Records.Label(1, project, "x", DefaultColor);
    var k := Records.LabelLink(1, targetType, targetId);
    var t1 := AttachOne(t0, project, targetType, targetId, "x");
    assert t1 == LabelTables([l], [k], 2);
    var t2 := AttachOne(t1, project, targetType, targetId, "x");
    assert t2 == LabelTables([l], [k, k], 2);
    var t3 := AttachOne(t2, project, targetType, targetId, "x");
    assert t3 == LabelTables([l], [k, k, k], 2);
    AttachByTitlesSnoc(t0, project, targetType, targetId, [], "x");
    AttachByTitlesSnoc(t0, project, targetType, targetId, ["x"], "x");
    AttachByTitlesSnoc(t0, project, targetType, targetId, ["x", "x"], "x");
  }

  lemma AttachByTitlesSnoc(t: LabelTables, project: int, targetType: string, targetId: int, titles: seq<string>, title: string)
    ensures AttachByTitles(t, project, targetType, targetId, titles + [title])
            == AttachOne(AttachByTitles(t, project, targetType, targetId, titles), project, targetType, targetId, title)
  {
    assert (titles + [title])[..|titles|] == titles;
  }

  /** `remove_labels` (`labels.delete_all`): the target's label links. */
  function RemoveLinks(links: seq<LabelLink>, targetType: string, targetId: int): seq<LabelLink>
  {
    Filter(links, (k: LabelLink) => !(k.targetType == targetType && k.targetId == targetId))
  }

  /** After `remove_labels` the target has no labels, and every other target
      keeps exactly the labels it had. */
  lemma {:induction false} RemoveLinksDetaches(links: seq<LabelLink>, labels: seq<Label>, targetType: string, targetId: int,
                                               otherType: string, otherId: int)
    ensures Records.LinkedLabels(RemoveLinks(links, targetType, targetId), labels, targetType, targetId) == []
    ensures (otherType, otherId) != (targetType, targetId) ==>
            Records.LinkedLabels(RemoveLinks(links, targetType, targetId), labels, otherType, otherId)
            == Records.LinkedLabels(links, labels, otherType, otherId)
  {
    if links != [] {
      var p := (k: LabelLink) => !(k.targetType == targetType && k.targetId == targetId);
      RemoveLinksDetaches(links[1..], labels, targetType, targetId, otherType, otherId);
      var rest := RemoveLinks(links[1..], targetType, targetId);
      if p(links[0]) {
        assert RemoveLinks(links, targetType, targetId) == [links[0]] + rest;
        assert ([links[0]] + rest)[1..] == rest;
      } else {
        assert RemoveLinks(links, targetType, targetId) == rest;
      }
    }
  }

  /** The `labels` and `label_links` tables of every project, as one object
      whose operations update them in place. */
  class LabelStore {
    var labels: seq<Label>
    var links: seq<LabelLink>
    var nextLabelId: int

    function Tables(): LabelTables
      reads this
    {
      LabelTables(labels, links, nextLabelId)
    }

    ghost predicate Valid()
      reads this
    {
      Consistent(Tables())
    }

    constructor ()
      ensures Valid() && Tables() == LabelTables([], [], 1)
    {
      labels, links, nextLabelId := [], [], 1;
    }

    /** `add_labels_by_names(names)` on `issuable`, an instance of
        `className`. */
    method AddLabelsByNames(issuable: Issuable, className: string, names: seq<string>)
      requires Valid()
      modifies this
      ensures Valid()
      ensures Tables() == AttachByNames(old(Tables()), issuable.projectId, className, issuable.id, names)
    {
      ghost var titles := StrippedNames(names);
      var i := 0;
      while i < |names|
        invariant 0 <= i <= |names|
        invariant Valid()
        invariant Tables() == AttachByTitles(old(Tables()), issuable.projectId, className, issuable.id, titles[..i])
      {
        AttachTitle(issuable, className, Strip(names[i]));
        AttachByTitlesSnoc(old(Tables()), issuable.projectId, className, issuable.id, titles[..i], titles[i]);
        assert titles[..i + 1] == titles[..i] + [titles[i]];
        i := i + 1;
      }
      assert titles[..|names|] == titles;
    }

    /** One iteration of `add_labels_by_names`: find or create the project
        label titled `title` and link `issuable` to it. */
    method AttachTitle(issuable: Issuable, className: string, title: string)
      requires Valid()
      modifies this
      ensures Valid()
      ensures Tables() == AttachOne(old(Tables()), issuable.projectId, className, issuable.id, title)
    {
      var found: Label;
      match FindProjectLabel(labels, issuable.projectId, title) {
        case Some(l) =>
          found := l;
        case None =>
          found := Records.Label(nextLabelId, issuable.projectId, title, DefaultColor);
          labels := labels + [found];
          nextLabelId := nextLabelId + 1;
      }
      links := links + [Records.LabelLink(found.id, className, issuable.id)];
      FindOrCreateConsistent(old(Tables()), issuable.projectId, title);
    }

    /** `remove_labels` on `issuable`, an instance of `className`: its label
        links are deleted, the labels stay. */
    method RemoveLabels(issuable: Issuable, className: string)
      requires Valid()
      modifies this
      ensures Valid()
      ensures labels == old(labels) && nextLabelId == old(nextLabelId)
      ensures links == RemoveLinks(old(links), className, issuable.id)
    {
      links := RemoveLinks(links, className, issuable.id);
    }
  }
}
