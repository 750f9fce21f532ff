/**
 * The reference definition of which issues the filter reports, stated
 * directly over the fetched list of open issues, without the dictionaries
 * the handler builds. When an id occurs more than once in the list, the
 * record listed last is the one whose relations and parent count, and the
 * record listed last among those assigned to the user is the one reported.
 */
module Selection {
  import opened Redmine
  import opened Rules

  /** Ids of the fetched open issues. */
  function OpenIds(issues: seq<Issue>): set<int> {
    set j | 0 <= j < |issues| :: issues[j].id
  }

  /** Ids with at least one fetched record assigned to the user. */
  function AssignedIds(issues: seq<Issue>, userId: int): set<int> {
    set j | 0 <= j < |issues| && AssignedTo(issues[j], userId) :: issues[j].id
  }

  /** No record after position `j` has the same id. */
  ghost predicate IsLast(issues: seq<Issue>, j: int) {
    0 <= j < |issues| && forall j' | j < j' < |issues| :: issues[j'].id != issues[j].id
  }

  /** Every id is unique to one record. */
  ghost predicate UniqueIds(issues: seq<Issue>) {
    forall a, b | 0 <= a < b < |issues| :: issues[a].id != issues[b].id
  }

  lemma OpenIdsLast(issues: seq<Issue>)
    requires |issues| > 0
    ensures OpenIds(issues) == OpenIds(issues[..|issues| - 1]) + {issues[|issues| - 1].id}
  {
  }

  lemma AssignedIdsLast(issues: seq<Issue>, userId: int)
    requires |issues| > 0
    ensures AssignedIds(issues, userId)
         == AssignedIds(issues[..|issues| - 1], userId)
          + (if AssignedTo(issues[|issues| - 1], userId) then {issues[|issues| - 1].id} else {})
  {
  }

  lemma AssignedAreOpen(issues: seq<Issue>, userId: int)
    ensures AssignedIds(issues, userId) <= OpenIds(issues)
  {
  }

  /** Position of the last record with id `k`. */
  function LastIndex(issues: seq<Issue>, k: int): (j: nat)
    requires k in OpenIds(issues)
    ensures j < |issues| && issues[j].id == k
    ensures forall j' | j < j' < |issues| :: issues[j'].id != k
    decreases |issues|
  {
    var n := |issues| - 1;
    if issues[n].id == k then n
    else
      OpenIdsLast(issues);
      LastIndex(issues[..n], k)
  }

  /** Position of the last record with id `k` that is assigned to the user. */
  function LastAssigned(issues: seq<Issue>, userId: int, k: int): (j: nat)
    requires k in AssignedIds(issues, userId)
    ensures j < |issues| && AssignedTo(issues[j], userId) && issues[j].id == k
    ensures forall j' | j < j' < |issues| :: !(AssignedTo(issues[j'], userId) && issues[j'].id == k)
    decreases |issues|
  {
    var n := |issues| - 1;
    if AssignedTo(issues[n], userId) && issues[n].id == k then n
    else
      AssignedIdsLast(issues, userId);
      LastAssigned(issues[..n], userId, k)
  }

  /** Position of the first record with id `k` that is assigned to the user. */
  function FirstAssigned(issues: seq<Issue>, userId: int, k: int): (j: nat)
    requires k in AssignedIds(issues, userId)
    ensures j < |issues| && AssignedTo(issues[j], userId) && issues[j].id == k
    ensures forall j' | 0 <= j' < j :: !(AssignedTo(issues[j'], userId) && issues[j'].id == k)
    decreases |issues|
  {
    var n := |issues| - 1;
    AssignedIdsLast(issues, userId);
    if k in AssignedIds(issues[..n], userId) then
      FirstAssigned(issues[..n], userId, k)
    else
      n
  }

  /**
   * Ids excluded by relations and parent links: for every open id, the
   * exclusions of the record listed last with that id.
   */
  ghost function LinkedExclusions(issues: seq<Issue>): set<int> {
    var open := OpenIds(issues);
    set k, e | k in open && e in Exclusions(issues[LastIndex(issues, k)], open) :: e
  }

  /** Candidates whose reported record starts after the pivot date. */
  ghost function FutureStarts(issues: seq<Issue>, userId: int, pivot: Date): set<int> {
    set k | k in AssignedIds(issues, userId) && StartsAfter(issues[LastAssigned(issues, userId, k)].startDate, pivot)
  }

  lemma FutureStartsMember(issues: seq<Issue>, userId: int, pivot: Date, k: int)
    requires k in AssignedIds(issues, userId)
    ensures k in FutureStarts(issues, userId, pivot) <==> StartsAfter(issues[LastAssigned(issues, userId, k)].startDate, pivot)
  {
  }

  /** The ids the filter reports: candidates minus every exclusion. */
  ghost function ReportedIds(issues: seq<Issue>, userId: int, pivot: Date): set<int> {
    AssignedIds(issues, userId) - LinkedExclusions(issues) - FutureStarts(issues, userId, pivot)
  }
}

/** The response list the reference selection determines, and why it determines exactly one. */
module SelectionList {
  import opened Redmine
  import opened Rules
  import opened Selection

  /**
   * `out` has one entry per reported id, built from that id's reported
   * record, listed in order of first assigned appearance.
   */
  ghost predicate ReportedList(out: seq<Entry>, url: string, userId: int, issues: seq<Issue>, pivot: Date) {
    && (forall m | 0 <= m < |out| :: out[m].localId in ReportedIds(issues, userId, pivot))
    && (forall m | 0 <= m < |out| :: out[m] == ToEntry(url, issues[LastAssigned(issues, userId, out[m].localId)]))
    && (forall k | k in ReportedIds(issues, userId, pivot) :: exists m :: 0 <= m < |out| && out[m].localId == k)
    && (forall m1, m2 | 0 <= m1 < m2 < |out| ::
          FirstAssigned(issues, userId, out[m1].localId) < FirstAssigned(issues, userId, out[m2].localId))
  }

  /** `s` is strictly increasing in `rank`. */
  ghost predicate Ranked(s: seq<int>, rank: map<int, nat>) {
    && (forall i | 0 <= i < |s| :: s[i] in rank)
    && (forall i, j | 0 <= i < j < |s| :: rank[s[i]] < rank[s[j]])
  }

  ghost predicate SameMembers(s: seq<int>, t: seq<int>) {
    && (forall i | 0 <= i < |s| :: s[i] in t)
    && (forall i | 0 <= i < |t| :: t[i] in s)
  }

  /** Of two ranked lists with the same members, both are empty or the heads agree. */
  lemma RankedHeads(s: seq<int>, t: seq<int>, rank: map<int, nat>)
    requires Ranked(s, rank) && Ranked(t, rank) && SameMembers(s, t)
    ensures |s| > 0 <==> |t| > 0
    ensures |s| > 0 ==> s[0] == t[0]
  {
  }

  /** Removing a common head from a ranked list keeps the members in step. */
  lemma RankedTails(s: seq<int>, t: seq<int>, rank: map<int, nat>)
    requires Ranked(s, rank) && Ranked(t, rank) && SameMembers(s, t)
    requires |s| > 0 && |t| > 0 && s[0] == t[0]
    ensures SameMembers(s[1..], t[1..])
  {
  }

  /** Two id lists strictly increasing in the same rank, with the same members, are equal. */
  lemma {:induction false} RankedUnique(s: seq<int>, t: seq<int>, rank: map<int, nat>)
    requires Ranked(s, rank) && Ranked(t, rank) && SameMembers(s, t)
    ensures s == t
    decreases |s|
  {
    RankedHeads(s, t, rank);
    if |s| > 0 {
      RankedTails(s, t, rank);
      assert Ranked(s[1..], rank) && Ranked(t[1..], rank);
      RankedUnique(s[1..], t[1..], rank);
      assert s == [s[0]] + s[1..] && t == [t[0]] + t[1..];
    }
  }

  /** The local ids of the entries, in order. */
  function Ids(es: seq<Entry>): (ids: seq<int>)
    ensures |ids| == |es| && forall m | 0 <= m < |es| :: ids[m] == es[m].localId
  {
    seq(|es|, m requires 0 <= m < |es| => es[m].localId)
  }

  /** Every assigned id ranked by its first assigned appearance. */
  ghost function FirstAssignedRank(issues: seq<Issue>, userId: int): (rank: map<int, nat>)
    ensures rank.Keys == AssignedIds(issues, userId)
    ensures forall k | k in rank :: rank[k] == FirstAssigned(issues, userId, k)
  {
    map k | k in AssignedIds(issues, userId) :: FirstAssigned(issues, userId, k)
  }

  /** The ids of a reported list rise strictly in first assigned appearance. */
  lemma ListRanked(out: seq<Entry>, url: string, userId: int, issues: seq<Issue>, pivot: Date)
    requires ReportedList(out, url, userId, issues, pivot)
    ensures Ranked(Ids(out), FirstAssignedRank(issues, userId))
  {
  }

  /** Two reported lists hold the same ids. */
  lemma ListMembers(a: seq<Entry>, b: seq<Entry>, url: string, userId: int, issues: seq<Issue>, pivot: Date)
    requires ReportedList(a, url, userId, issues, pivot)
    requires ReportedList(b, url, userId, issues, pivot)
    ensures forall x | x in Ids(a) :: x in Ids(b)
  {
  }

  /** The reference selection determines the response list completely. */
  lemma ReportedListUnique(a: seq<Entry>, b: seq<Entry>, url: string, userId: int, issues: seq<Issue>, pivot: Date)
    requires ReportedList(a, url, userId, issues, pivot)
    requires ReportedList(b, url, userId, issues, pivot)
    ensures a == b
  {
    var rank := FirstAssignedRank(issues, userId);
    var s, t := Ids(a), Ids(b);
    ListRanked(a, url, userId, issues, pivot);
    ListRanked(b, url, userId, issues, pivot);
    ListMembers(a, b, url, userId, issues, pivot);
    ListMembers(b, a, url, userId, issues, pivot);
    RankedUnique(s, t, rank);
    forall m | 0 <= m < |a| ensures a[m] == b[m] {
      assert s[m] == t[m];
    }
  }
}
