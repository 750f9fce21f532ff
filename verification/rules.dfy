/**
 * The per-record rules of the actionable-issue filter: which issues are
 * candidates, which ids a relation or a parent link excludes, which start
 * dates lie in the future, and how a surviving issue is rendered.
 */
module Rules {
  import opened Wrappers
  import opened Redmine
  import Decimal

  /** The candidate rule: the issue is assigned, and to this user. */
  predicate AssignedTo(i: Issue, userId: int) {
    i.assignee == Some(userId)
  }

  /**
   * The id a relation excludes, given the ids of the open issues: `blocks`
   * and `precedes` exclude `issue_to_id` when `issue_id` is open,
   * `blocked_by` and `follows` exclude `issue_id` when `issue_to_id` is open,
   * and any other relation type excludes nothing.
   */
  function RelationTarget(r: Relation, open: set<int>): (t: Option<int>)
    ensures t.Some? ==> (t.value == r.issueToId && r.issueId in open) || (t.value == r.issueId && r.issueToId in open)
    ensures (r.relationType == "blocks" || r.relationType == "precedes") ==> (t.Some? <==> r.issueId in open)
    ensures (r.relationType == "blocks" || r.relationType == "precedes") && t.Some? ==> t.value == r.issueToId
    ensures (r.relationType == "blocked_by" || r.relationType == "follows") ==> (t.Some? <==> r.issueToId in open)
    ensures (r.relationType == "blocked_by" || r.relationType == "follows") && t.Some? ==> t.value == r.issueId
    ensures r.relationType !in ["blocks", "precedes", "blocked_by", "follows"] ==> t.None?
  {
    if r.relationType == "blocks" || r.relationType == "precedes" then
      if r.issueId in open then Some(r.issueToId) else None
    else if r.relationType == "blocked_by" || r.relationType == "follows" then
      if r.issueToId in open then Some(r.issueId) else None
    else
      None
  }

  /** The ids excluded by a list of relations. */
  function RelationExclusions(rels: seq<Relation>, open: set<int>): set<int> {
    set r | r in rels && RelationTarget(r, open).Some? :: RelationTarget(r, open).value
  }

  /** The parent of an issue is excluded, whether or not the parent is open. */
  function ParentExclusion(i: Issue): (x: set<int>)
    ensures forall e | e in x :: i.parent == Some(e)
    ensures i.parent.Some? ==> i.parent.value in x
  {
    if i.parent.Some? then {i.parent.value} else {}
  }

  /** Every id that visiting issue `i` excludes. */
  function Exclusions(i: Issue, open: set<int>): set<int> {
    RelationExclusions(i.relations, open) + ParentExclusion(i)
  }

  /** The start date is known and lies strictly after the pivot date. */
  predicate StartsAfter(s: StartDate, pivot: Date) {
    s.StartsOn? && Later(s.date, pivot)
  }

  /**
   * The response entry of a surviving issue: its URI is the tracker URL
   * followed by `issues/` and the decimal issue id.
   */
  function ToEntry(url: string, i: Issue): (e: Entry)
    ensures e.localId == i.id
    ensures |e.uri| > |url| + 7 && e.uri[..|url|] == url && e.uri[|url|..|url| + 7] == "issues/"
    ensures e.parentLocalId == i.parent
    ensures e.subject == i.subject && e.description == i.description && e.doneRatio == i.doneRatio
  {
    Entry(url + "issues/" + Decimal.IntToString(i.id), i.id, i.subject, i.description, i.doneRatio, i.parent)
  }

  /** The issue id reads back from what follows `issues/` in an entry's URI. */
  lemma EntryUriReadsBack(url: string, i: Issue)
    ensures Decimal.ParseInt(ToEntry(url, i).uri[|url| + 7..]) == Some(i.id)
  {
    var e := ToEntry(url, i);
    Decimal.ParseIntToString(i.id);
    assert e.uri[|url| + 7..] == Decimal.IntToString(i.id);
  }

  /** Appending a relation adds to the excluded ids exactly the id it excludes, if any. */
  lemma RelationExclusionsSnoc(rels: seq<Relation>, r: Relation, open: set<int>)
    ensures RelationExclusions(rels + [r], open)
         == RelationExclusions(rels, open) + (if RelationTarget(r, open).Some? then {RelationTarget(r, open).value} else {})
  {
  }
}
