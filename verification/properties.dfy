/**
 * Properties of the handler's response, stated one rule at a time: which
 * ids can be listed, what each relation type and parent link does, how the
 * start date decides, that inert relations and the visiting order do not
 * matter, and that entries are distinct.
 */
module Properties {
  import opened Wrappers
  import opened Redmine
  import opened Rules
  import opened Selection
  import opened SelectionList
  import opened Filter
  import opened FilterProof

  /** Some entry of `out` carries local id `k`. */
  ghost predicate Listed(out: seq<Entry>, k: int) {
    exists m :: 0 <= m < |out| && out[m].localId == k
  }

  /** An id is listed exactly when it survives every exclusion of the reference selection. */
  lemma ListedIffReported(url: string, userId: int, issues: seq<Issue>, pivot: Date, k: int)
    ensures Listed(Actionables(url, userId, issues, pivot), k) <==> k in ReportedIds(issues, userId, pivot)
  {
    var out := Actionables(url, userId, issues, pivot);
    ActionablesMeetSelection(url, userId, issues, pivot);
    if Listed(out, k) {
      var m :| 0 <= m < |out| && out[m].localId == k;
      assert out[m].localId in ReportedIds(issues, userId, pivot);
    }
  }

  /** Only ids with a fetched record assigned to the user are listed. */
  lemma ListedOnlyIfAssigned(url: string, userId: int, issues: seq<Issue>, pivot: Date, k: int)
    ensures Listed(Actionables(url, userId, issues, pivot), k) ==>
              exists j :: 0 <= j < |issues| && issues[j].id == k && issues[j].assignee == Some(userId)
  {
    ListedIffReported(url, userId, issues, pivot, k);
  }

  /** A `blocks` or `precedes` relation from an open issue keeps its target out of the response. */
  lemma ForwardRelationExcludesTarget(url: string, userId: int, issues: seq<Issue>, pivot: Date, j: int, r: Relation)
    requires IsLast(issues, j) && r in issues[j].relations
    requires r.relationType == "blocks" || r.relationType == "precedes"
    requires r.issueId in OpenIds(issues)
    ensures !Listed(Actionables(url, userId, issues, pivot), r.issueToId)
  {
    LinkedByLast(url, userId, issues, pivot, j, r.issueToId);
  }

  /** A `blocked_by` or `follows` relation towards an open issue keeps its source out of the response. */
  lemma BackwardRelationExcludesSource(url: string, userId: int, issues: seq<Issue>, pivot: Date, j: int, r: Relation)
    requires IsLast(issues, j) && r in issues[j].relations
    requires r.relationType == "blocked_by" || r.relationType == "follows"
    requires r.issueToId in OpenIds(issues)
    ensures !Listed(Actionables(url, userId, issues, pivot), r.issueId)
  {
    LinkedByLast(url, userId, issues, pivot, j, r.issueId);
  }

  /** The parent of an open issue is never listed, whether or not the parent itself is open. */
  lemma ParentNeverListed(url: string, userId: int, issues: seq<Issue>, pivot: Date, j: int)
    requires IsLast(issues, j) && issues[j].parent.Some?
    ensures !Listed(Actionables(url, userId, issues, pivot), issues[j].parent.value)
  {
    LinkedByLast(url, userId, issues, pivot, j, issues[j].parent.value);
  }

  /**
   * What the record listed last under an id excludes is a linked exclusion,
   * and so it is not listed.
   */
  lemma LinkedByLast(url: string, userId: int, issues: seq<Issue>, pivot: Date, j: int, e: int)
    requires IsLast(issues, j) && e in Exclusions(issues[j], OpenIds(issues))
    ensures e in LinkedExclusions(issues)
    ensures !Listed(Actionables(url, userId, issues, pivot), e)
  {
    ListedIffReported(url, userId, issues, pivot, e);
    var k := issues[j].id;
    assert k in OpenIds(issues);
    var last := LastIndex(issues, k);
    assert last == j;
  }

  /** A candidate no relation or parent link excludes is reported unless it starts after the pivot date. */
  lemma ReportedUnlessFuture(issues: seq<Issue>, userId: int, pivot: Date, k: int)
    requires k in AssignedIds(issues, userId) && k !in LinkedExclusions(issues)
    ensures k in ReportedIds(issues, userId, pivot) <==> !StartsAfter(issues[LastAssigned(issues, userId, k)].startDate, pivot)
  {
    FutureStartsMember(issues, userId, pivot, k);
  }

  /**
   * The start date rule for a candidate no relation or parent link
   * excludes: it is listed exactly when its reported record has no start
   * date, an unreadable one, or one on or before the pivot date.
   */
  lemma StartDateDecides(url: string, userId: int, issues: seq<Issue>, pivot: Date, k: int)
    requires k in AssignedIds(issues, userId) && k !in LinkedExclusions(issues)
    ensures Listed(Actionables(url, userId, issues, pivot), k) <==>
              match issues[LastAssigned(issues, userId, k)].startDate
              case NoStartDate => true
              case Unreadable => true
              case StartsOn(d) => d == pivot || Later(pivot, d)
  {
    ListedIffReported(url, userId, issues, pivot, k);
    ReportedUnlessFuture(issues, userId, pivot, k);
    var s := issues[LastAssigned(issues, userId, k)].startDate;
    match s
    case NoStartDate =>
    case Unreadable =>
    case StartsOn(d) =>
      assert !Later(d, pivot) <==> d == pivot || Later(pivot, d);
  }

  /** A candidate whose reported record starts after the pivot date is never listed. */
  lemma FutureStartNeverListed(url: string, userId: int, issues: seq<Issue>, pivot: Date, k: int)
    requires k in AssignedIds(issues, userId)
    requires StartsAfter(issues[LastAssigned(issues, userId, k)].startDate, pivot)
    ensures !Listed(Actionables(url, userId, issues, pivot), k)
  {
    ListedIffReported(url, userId, issues, pivot, k);
    FutureStartsMember(issues, userId, pivot, k);
  }

  /** Two entries of the response differ in local id and in URI. */
  lemma EntriesDistinct(url: string, userId: int, issues: seq<Issue>, pivot: Date, m1: nat, m2: nat)
    requires m1 < m2 < |Actionables(url, userId, issues, pivot)|
    ensures Actionables(url, userId, issues, pivot)[m1].localId != Actionables(url, userId, issues, pivot)[m2].localId
    ensures Actionables(url, userId, issues, pivot)[m1].uri != Actionables(url, userId, issues, pivot)[m2].uri
  {
    var out := Actionables(url, userId, issues, pivot);
    ActionablesMeetSelection(url, userId, issues, pivot);
    assert FirstAssigned(issues, userId, out[m1].localId) < FirstAssigned(issues, userId, out[m2].localId);
    var x1 := issues[LastAssigned(issues, userId, out[m1].localId)];
    var x2 := issues[LastAssigned(issues, userId, out[m2].localId)];
    assert out[m1] == ToEntry(url, x1) && out[m2] == ToEntry(url, x2);
    EntryUriReadsBack(url, x1);
    EntryUriReadsBack(url, x2);
  }

  /** The two lists agree record by record, except possibly in their relations. */
  ghost predicate SameButRelations(issues: seq<Issue>, issues': seq<Issue>) {
    |issues'| == |issues| &&
    forall j | 0 <= j < |issues| :: issues'[j] == issues[j].(relations := issues'[j].relations)
  }

  /** Relations do not move any record: the last, last assigned and first assigned positions stay. */
  lemma PositionsIgnoreRelations(issues: seq<Issue>, issues': seq<Issue>, userId: int)
    requires SameButRelations(issues, issues')
    ensures OpenIds(issues') == OpenIds(issues)
    ensures AssignedIds(issues', userId) == AssignedIds(issues, userId)
    ensures forall k | k in OpenIds(issues) :: LastIndex(issues', k) == LastIndex(issues, k)
    ensures forall k | k in AssignedIds(issues, userId) ::
              && LastAssigned(issues', userId, k) == LastAssigned(issues, userId, k)
              && FirstAssigned(issues', userId, k) == FirstAssigned(issues, userId, k)
  {
  }

  /** When relations change without changing the linked exclusions, the response stays the same. */
  lemma ResponseIgnoresInertRelations(url: string, userId: int, issues: seq<Issue>, issues': seq<Issue>, pivot: Date)
    requires SameButRelations(issues, issues')
    requires LinkedExclusions(issues') == LinkedExclusions(issues)
    ensures Actionables(url, userId, issues', pivot) == Actionables(url, userId, issues, pivot)
  {
    var out := Actionables(url, userId, issues, pivot);
    PositionsIgnoreRelations(issues, issues', userId);
    forall k | k in AssignedIds(issues, userId)
      ensures k in FutureStarts(issues', userId, pivot) <==> k in FutureStarts(issues, userId, pivot)
    {
      FutureStartsMember(issues, userId, pivot, k);
      FutureStartsMember(issues', userId, pivot, k);
      var a := LastAssigned(issues, userId, k);
      assert issues'[a].startDate == issues[a].startDate;
    }
    assert ReportedIds(issues', userId, pivot) == ReportedIds(issues, userId, pivot);
    ActionablesMeetSelection(url, userId, issues, pivot);
    forall m | 0 <= m < |out|
      ensures out[m] == ToEntry(url, issues'[LastAssigned(issues', userId, out[m].localId)])
    {
      var a := LastAssigned(issues, userId, out[m].localId);
      assert ToEntry(url, issues'[a]) == ToEntry(url, issues[a]);
    }
    assert ReportedList(out, url, userId, issues', pivot);
    ActionablesCharacterised(url, userId, issues', pivot, out);
  }

  /** Adding a relation that excludes nothing to one record leaves the linked exclusions as they were. */
  lemma InertRelationLinksNothing(issues: seq<Issue>, j: int, r: Relation)
    requires 0 <= j < |issues| && RelationTarget(r, OpenIds(issues)).None?
    ensures SameButRelations(issues, issues[j := issues[j].(relations := issues[j].relations + [r])])
    ensures LinkedExclusions(issues[j := issues[j].(relations := issues[j].relations + [r])]) == LinkedExclusions(issues)
  {
    var issues' := issues[j := issues[j].(relations := issues[j].relations + [r])];
    PositionsIgnoreRelations(issues, issues', 0);
    var open := OpenIds(issues);
    RelationExclusionsSnoc(issues[j].relations, r, open);
    forall k | k in open
      ensures Exclusions(issues'[LastIndex(issues', k)], open) == Exclusions(issues[LastIndex(issues, k)], open)
    {
      var a := LastIndex(issues, k);
      if a == j {
        assert issues'[a].relations == issues[j].relations + [r];
      }
    }
    forall e | e in LinkedExclusions(issues') ensures e in LinkedExclusions(issues) {
      var k :| k in open && e in Exclusions(issues'[LastIndex(issues', k)], open);
    }
    forall e | e in LinkedExclusions(issues) ensures e in LinkedExclusions(issues') {
      var k :| k in open && e in Exclusions(issues[LastIndex(issues, k)], open);
    }
  }

  /** A `blocks` or `precedes` relation whose `issue_id` is not open changes nothing. */
  lemma ClosedForwardRelationIgnored(url: string, userId: int, issues: seq<Issue>, pivot: Date, j: int, r: Relation)
    requires 0 <= j < |issues|
    requires r.relationType == "blocks" || r.relationType == "precedes"
    requires r.issueId !in OpenIds(issues)
    ensures Actionables(url, userId, issues[j := issues[j].(relations := issues[j].relations + [r])], pivot)
         == Actionables(url, userId, issues, pivot)
  {
    InertRelationLinksNothing(issues, j, r);
    ResponseIgnoresInertRelations(url, userId, issues, issues[j := issues[j].(relations := issues[j].relations + [r])], pivot);
  }

  /** A `blocked_by` or `follows` relation whose `issue_to_id` is not open changes nothing. */
  lemma ClosedBackwardRelationIgnored(url: string, userId: int, issues: seq<Issue>, pivot: Date, j: int, r: Relation)
    requires 0 <= j < |issues|
    requires r.relationType == "blocked_by" || r.relationType == "follows"
    requires r.issueToId !in OpenIds(issues)
    ensures Actionables(url, userId, issues[j := issues[j].(relations := issues[j].relations + [r])], pivot)
         == Actionables(url, userId, issues, pivot)
  {
    InertRelationLinksNothing(issues, j, r);
    ResponseIgnoresInertRelations(url, userId, issues, issues[j := issues[j].(relations := issues[j].relations + [r])], pivot);
  }

  /** A relation of any type other than the four the handler knows changes nothing. */
  lemma OtherRelationTypesIgnored(url: string, userId: int, issues: seq<Issue>, pivot: Date, j: int, r: Relation)
    requires 0 <= j < |issues|
    requires r.relationType !in ["blocks", "blocked_by", "precedes", "follows"]
    ensures Actionables(url, userId, issues[j := issues[j].(relations := issues[j].relations + [r])], pivot)
         == Actionables(url, userId, issues, pivot)
  {
    InertRelationLinksNothing(issues, j, r);
    ResponseIgnoresInertRelations(url, userId, issues, issues[j := issues[j].(relations := issues[j].relations + [r])], pivot);
  }

  /** Reordering, repeating or dropping duplicates of a record's relations changes nothing. */
  lemma RelationOrderIgnored(url: string, userId: int, issues: seq<Issue>, pivot: Date, j: int, rels: seq<Relation>)
    requires 0 <= j < |issues|
    requires forall r :: r in rels <==> r in issues[j].relations
    ensures Actionables(url, userId, issues[j := issues[j].(relations := rels)], pivot)
         == Actionables(url, userId, issues, pivot)
  {
    var issues' := issues[j := issues[j].(relations := rels)];
    PositionsIgnoreRelations(issues, issues', 0);
    var open := OpenIds(issues);
    assert RelationExclusions(rels, open) == RelationExclusions(issues[j].relations, open);
    forall k | k in open
      ensures Exclusions(issues'[LastIndex(issues', k)], open) == Exclusions(issues[LastIndex(issues, k)], open)
    {
    }
    forall e | e in LinkedExclusions(issues') ensures e in LinkedExclusions(issues) {
      var k :| k in open && e in Exclusions(issues'[LastIndex(issues', k)], open);
    }
    forall e | e in LinkedExclusions(issues) ensures e in LinkedExclusions(issues') {
      var k :| k in open && e in Exclusions(issues[LastIndex(issues, k)], open);
    }
    ResponseIgnoresInertRelations(url, userId, issues, issues', pivot);
  }

  /** Under unique ids, the record of an id is the same whichever order the list comes in. */
  lemma RecordOfId(issues: seq<Issue>, issues': seq<Issue>, k: int)
    requires UniqueIds(issues) && UniqueIds(issues') && multiset(issues') == multiset(issues)
    requires k in OpenIds(issues)
    ensures k in OpenIds(issues')
    ensures issues'[LastIndex(issues', k)] == issues[LastIndex(issues, k)]
  {
    var x := issues[LastIndex(issues, k)];
    assert x in multiset(issues);
    assert x in issues';
    var b :| 0 <= b < |issues'| && issues'[b] == x;
    assert k in OpenIds(issues');
    var b' := LastIndex(issues', k);
    assert b == b';
  }

  /** Under unique ids, the only assigned record of an id is its only record. */
  lemma AssignedIsLast(issues: seq<Issue>, userId: int, k: int)
    requires UniqueIds(issues) && k in AssignedIds(issues, userId)
    ensures k in OpenIds(issues)
    ensures LastAssigned(issues, userId, k) == LastIndex(issues, k)
  {
  }

  /** Under unique ids, the same issues fetched in another order yield the same reported ids. */
  lemma ReportedIgnoresFetchOrder(issues: seq<Issue>, issues': seq<Issue>, userId: int, pivot: Date)
    requires UniqueIds(issues) && UniqueIds(issues') && multiset(issues') == multiset(issues)
    ensures OpenIds(issues') == OpenIds(issues)
    ensures AssignedIds(issues', userId) == AssignedIds(issues, userId)
    ensures ReportedIds(issues', userId, pivot) == ReportedIds(issues, userId, pivot)
  {
    forall k | k in OpenIds(issues) ensures k in OpenIds(issues') {
      RecordOfId(issues, issues', k);
    }
    forall k | k in OpenIds(issues') ensures k in OpenIds(issues) {
      RecordOfId(issues', issues, k);
    }
    var open := OpenIds(issues);
    forall k | k in open ensures issues'[LastIndex(issues', k)] == issues[LastIndex(issues, k)] {
      RecordOfId(issues, issues', k);
    }
    forall k | k in AssignedIds(issues, userId) ensures k in AssignedIds(issues', userId) {
      AssignedIsLast(issues, userId, k);
      var a := LastIndex(issues', k);
      assert AssignedTo(issues'[a], userId);
    }
    forall k | k in AssignedIds(issues', userId) ensures k in AssignedIds(issues, userId) {
      AssignedIsLast(issues', userId, k);
      var a := LastIndex(issues, k);
      assert AssignedTo(issues[a], userId);
    }
    forall k | k in AssignedIds(issues, userId)
      ensures issues'[LastAssigned(issues', userId, k)] == issues[LastAssigned(issues, userId, k)]
    {
      AssignedIsLast(issues, userId, k);
      AssignedIsLast(issues', userId, k);
    }
    forall e | e in LinkedExclusions(issues') ensures e in LinkedExclusions(issues) {
      var k :| k in open && e in Exclusions(issues'[LastIndex(issues', k)], open);
    }
    forall e | e in LinkedExclusions(issues) ensures e in LinkedExclusions(issues') {
      var k :| k in open && e in Exclusions(issues[LastIndex(issues, k)], open);
      assert OpenIds(issues') == open && e in Exclusions(issues'[LastIndex(issues', k)], open);
    }
    forall k | k in AssignedIds(issues, userId)
      ensures k in FutureStarts(issues', userId, pivot) <==> k in FutureStarts(issues, userId, pivot)
    {
      FutureStartsMember(issues, userId, pivot, k);
      FutureStartsMember(issues', userId, pivot, k);
    }
  }

  /** An entry is in the response exactly when it renders the reported record of a reported id. */
  lemma InResponse(url: string, userId: int, issues: seq<Issue>, pivot: Date, e: Entry)
    ensures e in Actionables(url, userId, issues, pivot) <==>
              e.localId in ReportedIds(issues, userId, pivot) &&
              e == ToEntry(url, issues[LastAssigned(issues, userId, e.localId)])
  {
    var out := Actionables(url, userId, issues, pivot);
    ActionablesMeetSelection(url, userId, issues, pivot);
    if e.localId in ReportedIds(issues, userId, pivot) && e == ToEntry(url, issues[LastAssigned(issues, userId, e.localId)]) {
      var m :| 0 <= m < |out| && out[m].localId == e.localId;
      assert out[m] == e;
    }
  }

  /**
   * Under unique ids, the same issues fetched in another order yield the
   * same entries; only their order follows the fetched list.
   */
  lemma ResponseIgnoresFetchOrder(url: string, userId: int, issues: seq<Issue>, issues': seq<Issue>, pivot: Date)
    requires UniqueIds(issues) && UniqueIds(issues') && multiset(issues') == multiset(issues)
    ensures forall e :: e in Actionables(url, userId, issues', pivot) <==> e in Actionables(url, userId, issues, pivot)
  {
    ReportedIgnoresFetchOrder(issues, issues', userId, pivot);
    forall e ensures e in Actionables(url, userId, issues', pivot) <==> e in Actionables(url, userId, issues, pivot) {
      InResponse(url, userId, issues, pivot, e);
      InResponse(url, userId, issues', pivot, e);
      if e.localId in AssignedIds(issues, userId) {
        AssignedIsLast(issues, userId, e.localId);
        AssignedIsLast(issues', userId, e.localId);
        RecordOfId(issues, issues', e.localId);
      }
    }
  }
}
