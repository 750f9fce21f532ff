/**
 * The actionable-issue filter of the `/v0/redmine/actionables` handler,
 * step by step as the handler runs it: two dictionaries keyed by issue id
 * are filled from the fetched list, exclusions overwrite candidate entries
 * with `None`, and the surviving candidates are rendered in dictionary order.
 */
module Filter {
  import opened Wrappers
  import opened Redmine
  import opened Rules
  import opened Dicts
  import opened Selection

  /** `issue_all` (every open issue) and `issue_user` (candidates, `None` once excluded). */
  datatype Maps = Maps(all: Dict<Issue>, user: Dict<Option<Issue>>)

  /** Every issue stored under a key carries that key as its id. */
  ghost predicate Consistent(u: Dict<Option<Issue>>) {
    forall k | k in u.vals && u.vals[k].Some? :: u.vals[k].value.id == k
  }

  /**
   * Fills both dictionaries from the fetched list: every issue goes into
   * `issue_all`, issues assigned to the user into `issue_user`.
   */
  function CollectMaps(issues: seq<Issue>, userId: int): (m: Maps)
    ensures m.all.Valid() && m.user.Valid()
    ensures m.all.vals.Keys == OpenIds(issues)
    ensures m.user.vals.Keys == AssignedIds(issues, userId)
    decreases |issues|
  {
    if |issues| == 0 then
      Maps(Empty(), Empty())
    else
      var n := |issues| - 1;
      var x := issues[n];
      var m := CollectMaps(issues[..n], userId);
      OpenIdsLast(issues);
      AssignedIdsLast(issues, userId);
      var all := m.all.Put(x.id, x);
      var user := if AssignedTo(x, userId) then m.user.Put(x.id, Some(x)) else m.user;
      Maps(all, user)
  }

  /** One step of filling the dictionaries: the last fetched record is stored after the others. */
  lemma CollectMapsLast(issues: seq<Issue>, userId: int)
    requires |issues| > 0
    ensures var n := |issues| - 1;
            var x := issues[n];
            var p := CollectMaps(issues[..n], userId);
            var m := CollectMaps(issues, userId);
            && m.all == p.all.Put(x.id, x)
            && m.user == (if AssignedTo(x, userId) then p.user.Put(x.id, Some(x)) else p.user)
  {
  }

  /** `issue_all` holds, under each open id, the record listed last with that id. */
  lemma {:induction false} CollectAllRecords(issues: seq<Issue>, userId: int)
    ensures var m := CollectMaps(issues, userId);
            forall k | k in m.all.vals :: m.all.vals[k] == issues[LastIndex(issues, k)]
    decreases |issues|
  {
    if |issues| > 0 {
      var n := |issues| - 1;
      var x := issues[n];
      CollectAllRecords(issues[..n], userId);
      CollectMapsLast(issues, userId);
      var p := CollectMaps(issues[..n], userId);
      var m := CollectMaps(issues, userId);
      forall k | k in m.all.vals ensures m.all.vals[k] == issues[LastIndex(issues, k)] {
        if k != x.id {
          assert k in p.all.vals;
          assert m.all.vals[k] == p.all.vals[k];
          var j := LastIndex(issues[..n], k);
          assert LastIndex(issues, k) == j;
          assert issues[..n][j] == issues[j];
        }
      }
    }
  }

  /**
   * `issue_user` holds, under each candidate id, the record listed last
   * among those assigned to the user with that id.
   */
  lemma {:induction false} CollectUserRecords(issues: seq<Issue>, userId: int)
    ensures var m := CollectMaps(issues, userId);
            forall k | k in m.user.vals :: m.user.vals[k] == Some(issues[LastAssigned(issues, userId, k)])
    decreases |issues|
  {
    if |issues| > 0 {
      var n := |issues| - 1;
      CollectUserRecords(issues[..n], userId);
      var p := CollectMaps(issues[..n], userId);
      var m := CollectMaps(issues, userId);
      forall k | k in m.user.vals ensures m.user.vals[k] == Some(issues[LastAssigned(issues, userId, k)]) {
        if !(AssignedTo(issues[n], userId) && k == issues[n].id) {
          AssignedIdsLast(issues, userId);
          assert issues[LastAssigned(issues[..n], userId, k)] == issues[..n][LastAssigned(issues[..n], userId, k)];
        }
      }
    }
  }

  /** Keys listed in order of first assigned appearance in the fetched list. */
  ghost predicate FirstAssignedOrder(ks: seq<int>, issues: seq<Issue>, userId: int) {
    && (forall a | 0 <= a < |ks| :: ks[a] in AssignedIds(issues, userId))
    && (forall a, b | 0 <= a < b < |ks| :: FirstAssigned(issues, userId, ks[a]) < FirstAssigned(issues, userId, ks[b]))
  }

  /** An id already assigned in a prefix keeps its first assigned position when the list grows. */
  lemma FirstAssignedPrefix(issues: seq<Issue>, userId: int, k: int)
    requires |issues| > 0 && k in AssignedIds(issues[..|issues| - 1], userId)
    ensures k in AssignedIds(issues, userId)
    ensures FirstAssigned(issues, userId, k) == FirstAssigned(issues[..|issues| - 1], userId, k)
  {
    AssignedIdsLast(issues, userId);
  }

  /** One step of the order: the last record, if it is a new candidate, is ranked after all others. */
  lemma CollectUserOrderStep(issues: seq<Issue>, userId: int)
    requires |issues| > 0
    requires FirstAssignedOrder(CollectMaps(issues[..|issues| - 1], userId).user.keys, issues[..|issues| - 1], userId)
    ensures FirstAssignedOrder(CollectMaps(issues, userId).user.keys, issues, userId)
  {
    var n := |issues| - 1;
    var x := issues[n];
    CollectMapsLast(issues, userId);
    var p := CollectMaps(issues[..n], userId).user;
    var m := CollectMaps(issues, userId).user;
    forall a | 0 <= a < |p.keys|
      ensures p.keys[a] in AssignedIds(issues, userId)
      ensures FirstAssigned(issues, userId, p.keys[a]) == FirstAssigned(issues[..n], userId, p.keys[a])
    {
      FirstAssignedPrefix(issues, userId, p.keys[a]);
    }
    var added := AssignedTo(x, userId) && x.id !in AssignedIds(issues[..n], userId);
    assert m.keys == if added then p.keys + [x.id] else p.keys;
    if added {
      AssignedIdsLast(issues, userId);
      assert FirstAssigned(issues, userId, x.id) == n;
    }
    forall a | 0 <= a < |m.keys| ensures m.keys[a] in AssignedIds(issues, userId) {
      if a == |p.keys| {
        AssignedIdsLast(issues, userId);
      }
    }
    forall a, b | 0 <= a < b < |m.keys|
      ensures FirstAssigned(issues, userId, m.keys[a]) < FirstAssigned(issues, userId, m.keys[b])
    {
      assert m.keys[a] == p.keys[a];
      if b < |p.keys| {
        assert m.keys[b] == p.keys[b];
      } else {
        assert m.keys[b] == x.id;
      }
    }
  }

  /** The keys of `issue_user` are in order of first assigned appearance in the fetched list. */
  lemma {:induction false} CollectUserOrder(issues: seq<Issue>, userId: int)
    ensures FirstAssignedOrder(CollectMaps(issues, userId).user.keys, issues, userId)
    decreases |issues|
  {
    if |issues| > 0 {
      CollectUserOrder(issues[..|issues| - 1], userId);
      CollectUserOrderStep(issues, userId);
    }
  }

  /** Marks as excluded the id each relation in `rels` targets. */
  function MarkRelations(user: Dict<Option<Issue>>, rels: seq<Relation>, open: set<int>): (r: Dict<Option<Issue>>)
    requires user.Valid()
    ensures r.Valid()
    ensures user.keys <= r.keys
    ensures r.vals.Keys == user.vals.Keys + RelationExclusions(rels, open)
    ensures forall k | k in r.vals :: r.vals[k] == if k in RelationExclusions(rels, open) then None else user.vals[k]
    decreases |rels|
  {
    if |rels| == 0 then
      user
    else
      var n := |rels| - 1;
      var u := MarkRelations(user, rels[..n], open);
      assert rels == rels[..n] + [rels[n]];
      RelationExclusionsSnoc(rels[..n], rels[n], open);
      match RelationTarget(rels[n], open)
      case Some(k) => u.Put(k, None)
      case None => u
  }

  /** The ids excluded by visiting `all`'s issues from position `n` on. */
  ghost function ExcludedFrom(all: Dict<Issue>, n: nat): set<int>
    requires all.Valid() && n <= |all.keys|
    decreases |all.keys| - n
  {
    if n == |all.keys| then {} else Exclusions(all.vals[all.keys[n]], all.vals.Keys) + ExcludedFrom(all, n + 1)
  }

  /**
   * Visits the open issues from position `n` on, marking as excluded the
   * targets of their relations and their parents. Only `None` is written:
   * an excluded candidate is never reinstated, and keys that were never
   * candidates may be added with `None`.
   */
  function MarkLinked(user: Dict<Option<Issue>>, all: Dict<Issue>, n: nat): (r: Dict<Option<Issue>>)
    requires user.Valid() && all.Valid() && n <= |all.keys|
    ensures r.Valid()
    ensures user.keys <= r.keys
    ensures r.vals.Keys == user.vals.Keys + ExcludedFrom(all, n)
    ensures forall k | k in r.vals :: r.vals[k] == if k in ExcludedFrom(all, n) then None else user.vals[k]
    decreases |all.keys| - n
  {
    if n == |all.keys| then
      user
    else
      var i := all.vals[all.keys[n]];
      var u := MarkRelations(user, i.relations, all.vals.Keys);
      var u' := if i.parent.Some? then u.Put(i.parent.value, None) else u;
      MarkLinked(u', all, n + 1)
  }

  /** Exclusion only ever writes `None`: every other value is the one that was there before. */
  lemma ConsistentKept(before: Dict<Option<Issue>>, after: Dict<Option<Issue>>)
    requires Consistent(before)
    requires forall k | k in after.vals :: after.vals[k].None? || (k in before.vals && after.vals[k] == before.vals[k])
    ensures Consistent(after)
  {
  }

  /** The value a future-start check leaves under a key. */
  function Dated(v: Option<Issue>, pivot: Date): (r: Option<Issue>)
    ensures r.None? <==> v.None? || StartsAfter(v.value.startDate, pivot)
    ensures r.Some? ==> r == v
  {
    if v.Some? && StartsAfter(v.value.startDate, pivot) then None else v
  }

  /**
   * Walks the keys from position `n` on, reading each value as it stands,
   * and excludes the candidates whose start date lies after the pivot date.
   */
  function DropFuture(u: Dict<Option<Issue>>, n: nat, pivot: Date): (r: Dict<Option<Issue>>)
    requires u.Valid() && Consistent(u) && n <= |u.keys|
    ensures r.Valid() && Consistent(r)
    ensures r.keys == u.keys && r.vals.Keys == u.vals.Keys
    ensures forall a | 0 <= a < |u.keys| ::
              r.vals[u.keys[a]] == if a < n then u.vals[u.keys[a]] else Dated(u.vals[u.keys[a]], pivot)
    decreases |u.keys| - n
  {
    if n == |u.keys| then
      u
    else
      match u.vals[u.keys[n]]
      case None => DropFuture(u, n + 1, pivot)
      case Some(i) =>
        assert i.id == u.keys[n];
        var u' := if StartsAfter(i.startDate, pivot) then u.Put(i.id, None) else u;
        assert u'.keys == u.keys;
        DropFuture(u', n + 1, pivot)
  }

  /** The entries of the surviving candidates among the first `n` keys, in key order. */
  function Assemble(url: string, u: Dict<Option<Issue>>, n: nat): (r: seq<Entry>)
    requires u.Valid() && n <= |u.keys|
    ensures |r| <= n
    decreases n
  {
    if n == 0 then
      []
    else
      var r := Assemble(url, u, n - 1);
      match u.vals[u.keys[n - 1]]
      case None => r
      case Some(i) => r + [ToEntry(url, i)]
  }

  /** Every entry is the entry of the candidate stored under its id. */
  lemma {:induction false} AssembleSound(url: string, u: Dict<Option<Issue>>, n: nat)
    requires u.Valid() && Consistent(u) && n <= |u.keys|
    ensures forall m | 0 <= m < |Assemble(url, u, n)| ::
              && Assemble(url, u, n)[m].localId in u.vals
              && u.vals[Assemble(url, u, n)[m].localId].Some?
              && Assemble(url, u, n)[m] == ToEntry(url, u.vals[Assemble(url, u, n)[m].localId].value)
    decreases n
  {
    if n > 0 {
      AssembleSound(url, u, n - 1);
      var r := Assemble(url, u, n - 1);
      var k := u.keys[n - 1];
      if u.vals[k].Some? {
        var r' := Assemble(url, u, n);
        assert r' == r + [ToEntry(url, u.vals[k].value)];
        forall m | 0 <= m < |r'|
          ensures r'[m].localId in u.vals && u.vals[r'[m].localId].Some?
          ensures r'[m] == ToEntry(url, u.vals[r'[m].localId].value)
        {
          if m < |r| {
            assert r'[m] == r[m];
            assert r[m].localId in u.vals;
          } else {
            assert k in u.vals && u.vals[k].value.id == k;
            assert r'[m] == ToEntry(url, u.vals[k].value);
            assert r'[m].localId == k;
          }
        }
      }
    }
  }

  /** After the relation and parent pass, every candidate still stored is stored under its own id. */
  lemma LinkedConsistent(issues: seq<Issue>, userId: int)
    ensures var m := CollectMaps(issues, userId);
            Consistent(MarkLinked(m.user, m.all, 0))
  {
    var m := CollectMaps(issues, userId);
    CollectUserRecords(issues, userId);
    forall k | k in m.user.vals && m.user.vals[k].Some? ensures m.user.vals[k].value.id == k {
      var j := LastAssigned(issues, userId, k);
      assert m.user.vals[k] == Some(issues[j]);
    }
    ConsistentKept(m.user, MarkLinked(m.user, m.all, 0));
  }

  /** `issue_user` once every exclusion has been applied. */
  function Survivors(issues: seq<Issue>, userId: int, pivot: Date): (d: Dict<Option<Issue>>)
    ensures d.Valid() && Consistent(d)
  {
    var m := CollectMaps(issues, userId);
    var linked := MarkLinked(m.user, m.all, 0);
    LinkedConsistent(issues, userId);
    DropFuture(linked, 0, pivot)
  }

  /** The `issues` list of the response for the fetched open issues. */
  function Actionables(url: string, userId: int, issues: seq<Issue>, pivot: Date): seq<Entry> {
    var d := Survivors(issues, userId, pivot);
    Assemble(url, d, |d.keys|)
  }
}

/** Proof that the handler's dictionary passes compute the reference selection. */
module FilterProof {
  import opened Wrappers
  import opened Redmine
  import opened Rules
  import opened Dicts
  import opened Selection
  import opened SelectionList
  import opened Filter

  /** A member of the exclusions from position n on comes from some record at or after n. */
  lemma {:induction false} ExcludedFromMembers(all: Dict<Issue>, n: nat)
    requires all.Valid() && n <= |all.keys|
    ensures forall e :: e in ExcludedFrom(all, n) <==>
              exists a :: n <= a < |all.keys| && e in Exclusions(all.vals[all.keys[a]], all.vals.Keys)
    decreases |all.keys| - n
  {
    if n < |all.keys| {
      ExcludedFromMembers(all, n + 1);
    }
  }

  /** The relation and parent pass excludes exactly the reference's linked exclusions. */
  lemma LinkedPassExcludes(issues: seq<Issue>, userId: int)
    ensures var all := CollectMaps(issues, userId).all;
            ExcludedFrom(all, 0) == LinkedExclusions(issues)
  {
    var all := CollectMaps(issues, userId).all;
    var open := OpenIds(issues);
    CollectAllRecords(issues, userId);
    ExcludedFromMembers(all, 0);
    forall e | e in ExcludedFrom(all, 0) ensures e in LinkedExclusions(issues) {
      var a :| 0 <= a < |all.keys| && e in Exclusions(all.vals[all.keys[a]], all.vals.Keys);
      var k := all.keys[a];
      assert k in open && all.vals[k] == issues[LastIndex(issues, k)];
    }
    forall e | e in LinkedExclusions(issues) ensures e in ExcludedFrom(all, 0) {
      var k :| k in open && e in Exclusions(issues[LastIndex(issues, k)], open);
      assert k in all.keys;
      var a :| 0 <= a < |all.keys| && all.keys[a] == k;
      assert e in Exclusions(all.vals[all.keys[a]], all.vals.Keys);
    }
  }

  /** The value left under one key after both exclusion passes. */
  lemma DatedValueAt(issues: seq<Issue>, userId: int, pivot: Date, k: int)
    requires k in Survivors(issues, userId, pivot).vals
    ensures k in AssignedIds(issues, userId) + LinkedExclusions(issues)
    ensures Survivors(issues, userId, pivot).vals[k]
         == if k in ReportedIds(issues, userId, pivot) then Some(issues[LastAssigned(issues, userId, k)]) else None
  {
    var m := CollectMaps(issues, userId);
    var linked := MarkLinked(m.user, m.all, 0);
    var dated := Survivors(issues, userId, pivot);
    LinkedConsistent(issues, userId);
    assert dated == DropFuture(linked, 0, pivot);
    LinkedPassExcludes(issues, userId);
    var a :| 0 <= a < |linked.keys| && linked.keys[a] == k;
    assert dated.vals[k] == Dated(linked.vals[k], pivot);
    if k in LinkedExclusions(issues) {
      assert linked.vals[k] == None;
    } else {
      CollectUserRecords(issues, userId);
      assert k in m.user.vals;
      assert linked.vals[k] == m.user.vals[k];
      FutureStartsMember(issues, userId, pivot, k);
    }
  }

  /** Each value left after both exclusion passes: the reported record for reported ids, `None` otherwise. */
  lemma DatedValues(issues: seq<Issue>, userId: int, pivot: Date)
    ensures var dated := Survivors(issues, userId, pivot);
            && dated.vals.Keys == AssignedIds(issues, userId) + LinkedExclusions(issues)
            && forall k | k in dated.vals ::
                 dated.vals[k] == if k in ReportedIds(issues, userId, pivot) then Some(issues[LastAssigned(issues, userId, k)]) else None
  {
    var m := CollectMaps(issues, userId);
    LinkedPassExcludes(issues, userId);
    forall k | k in Survivors(issues, userId, pivot).vals
      ensures Survivors(issues, userId, pivot).vals[k]
           == if k in ReportedIds(issues, userId, pivot) then Some(issues[LastAssigned(issues, userId, k)]) else None
    {
      DatedValueAt(issues, userId, pivot, k);
    }
  }

  /** Surviving candidates are listed in order of first assigned appearance. */
  lemma DatedOrder(issues: seq<Issue>, userId: int, pivot: Date)
    ensures var dated := Survivors(issues, userId, pivot);
            forall a, b | 0 <= a < b < |dated.keys| && dated.vals[dated.keys[a]].Some? && dated.vals[dated.keys[b]].Some? ::
              && dated.keys[a] in AssignedIds(issues, userId)
              && dated.keys[b] in AssignedIds(issues, userId)
              && FirstAssigned(issues, userId, dated.keys[a]) < FirstAssigned(issues, userId, dated.keys[b])
  {
    var m := CollectMaps(issues, userId);
    var linked := MarkLinked(m.user, m.all, 0);
    LinkedConsistent(issues, userId);
    var dated := DropFuture(linked, 0, pivot);
    DatedValues(issues, userId, pivot);
    CollectUserOrder(issues, userId);
    forall a, b | 0 <= a < b < |dated.keys| && dated.vals[dated.keys[a]].Some? && dated.vals[dated.keys[b]].Some?
      ensures dated.keys[a] in AssignedIds(issues, userId) && dated.keys[b] in AssignedIds(issues, userId)
      ensures FirstAssigned(issues, userId, dated.keys[a]) < FirstAssigned(issues, userId, dated.keys[b])
    {
      var ka, kb := dated.keys[a], dated.keys[b];
      assert ka in m.user.vals && kb in m.user.vals;
      var a' :| 0 <= a' < |m.user.keys| && m.user.keys[a'] == ka;
      var b' :| 0 <= b' < |m.user.keys| && m.user.keys[b'] == kb;
      assert linked.keys[a'] == ka && linked.keys[b'] == kb;
      KeyPosition(linked, a, a');
      KeyPosition(linked, b, b');
    }
  }

  /** Entries whose ids all have a rank, listed in strictly increasing rank. */
  ghost predicate EntriesRanked(es: seq<Entry>, rank: map<int, nat>) {
    && (forall m | 0 <= m < |es| :: es[m].localId in rank)
    && (forall m1, m2 | 0 <= m1 < m2 < |es| :: rank[es[m1].localId] < rank[es[m2].localId])
  }

  /** The keys holding a surviving candidate all have a rank, and are listed in strictly increasing rank. */
  ghost predicate SurvivorsRanked(u: Dict<Option<Issue>>, rank: map<int, nat>)
    requires u.Valid()
  {
    && (forall a | 0 <= a < |u.keys| && u.vals[u.keys[a]].Some? :: u.keys[a] in rank)
    && (forall a, b | 0 <= a < b < |u.keys| && u.vals[u.keys[a]].Some? && u.vals[u.keys[b]].Some? ::
          rank[u.keys[a]] < rank[u.keys[b]])
  }

  /** The entry of the surviving candidate at position `n - 1`, appended after the earlier ones. */
  lemma AssembleLast(url: string, u: Dict<Option<Issue>>, n: nat)
    requires u.Valid() && Consistent(u) && 0 < n <= |u.keys|
    ensures u.vals[u.keys[n - 1]].None? ==> Assemble(url, u, n) == Assemble(url, u, n - 1)
    ensures u.vals[u.keys[n - 1]].Some? ==>
              Assemble(url, u, n) == Assemble(url, u, n - 1) + [ToEntry(url, u.vals[u.keys[n - 1]].value)]
  {
  }

  /** Every surviving candidate among the first `n` keys has an entry, at position `m`. */
  lemma {:induction false} AssembleCovers(url: string, u: Dict<Option<Issue>>, n: nat, a: nat) returns (m: nat)
    requires u.Valid() && Consistent(u) && a < n <= |u.keys| && u.vals[u.keys[a]].Some?
    ensures m < |Assemble(url, u, n)| && Assemble(url, u, n)[m].localId == u.keys[a]
    decreases n
  {
    var r := Assemble(url, u, n - 1);
    AssembleLast(url, u, n);
    if a < n - 1 {
      m := AssembleCovers(url, u, n - 1, a);
      if u.vals[u.keys[n - 1]].Some? {
        assert Assemble(url, u, n)[m] == (r + [ToEntry(url, u.vals[u.keys[n - 1]].value)])[m] == r[m];
      }
    } else {
      m := |r|;
      assert u.vals[u.keys[a]].value.id == u.keys[a];
      assert Assemble(url, u, n)[m] == ToEntry(url, u.vals[u.keys[a]].value);
    }
  }

  /** Appending an entry ranked after all earlier ones keeps the order. */
  lemma AppendRanked(r: seq<Entry>, e: Entry, rank: map<int, nat>)
    requires EntriesRanked(r, rank)
    requires e.localId in rank
    requires forall m | 0 <= m < |r| :: rank[r[m].localId] < rank[e.localId]
    ensures EntriesRanked(r + [e], rank)
  {
    var r' := r + [e];
    assert forall m | 0 <= m < |r| :: r'[m] == r[m];
  }

  /**
   * Assembling keeps the order of the surviving keys: the entries of the
   * first `n` keys are in increasing rank, and ranked below every later
   * surviving key.
   */
  lemma {:induction false} AssembleRanked(url: string, u: Dict<Option<Issue>>, n: nat, rank: map<int, nat>)
    requires u.Valid() && Consistent(u) && n <= |u.keys|
    requires SurvivorsRanked(u, rank)
    ensures EntriesRanked(Assemble(url, u, n), rank)
    ensures var r := Assemble(url, u, n);
            forall m, a | 0 <= m < |r| && n <= a < |u.keys| && u.vals[u.keys[a]].Some? :: rank[r[m].localId] < rank[u.keys[a]]
    decreases n
  {
    if n > 0 {
      AssembleRanked(url, u, n - 1, rank);
      AssembleLast(url, u, n);
      var r := Assemble(url, u, n - 1);
      var k := u.keys[n - 1];
      if u.vals[k].Some? {
        var e := ToEntry(url, u.vals[k].value);
        assert e.localId == k;
        AppendRanked(r, e, rank);
        var r' := Assemble(url, u, n);
        forall m, a | 0 <= m < |r'| && n <= a < |u.keys| && u.vals[u.keys[a]].Some?
          ensures rank[r'[m].localId] < rank[u.keys[a]]
        {
          if m < |r| {
            assert r'[m] == r[m];
          }
        }
      }
    }
  }

  /** The output lists only reported ids, each with the entry of its reported record. */
  lemma EntriesAreReported(url: string, userId: int, issues: seq<Issue>, pivot: Date, m: nat)
    requires m < |Actionables(url, userId, issues, pivot)|
    ensures Actionables(url, userId, issues, pivot)[m].localId in ReportedIds(issues, userId, pivot)
    ensures Actionables(url, userId, issues, pivot)[m]
         == ToEntry(url, issues[LastAssigned(issues, userId, Actionables(url, userId, issues, pivot)[m].localId)])
  {
    var d := Survivors(issues, userId, pivot);
    var out := Actionables(url, userId, issues, pivot);
    assert out == Assemble(url, d, |d.keys|);
    AssembleSound(url, d, |d.keys|);
    DatedValueAt(issues, userId, pivot, out[m].localId);
  }

  /** Every reported id has an entry in the output. */
  lemma ReportedHaveEntries(url: string, userId: int, issues: seq<Issue>, pivot: Date)
    ensures var out := Actionables(url, userId, issues, pivot);
            forall k | k in ReportedIds(issues, userId, pivot) :: exists m :: 0 <= m < |out| && out[m].localId == k
  {
    var d := Survivors(issues, userId, pivot);
    var out := Actionables(url, userId, issues, pivot);
    assert out == Assemble(url, d, |d.keys|);
    DatedValues(issues, userId, pivot);
    forall k | k in ReportedIds(issues, userId, pivot) ensures exists m :: 0 <= m < |out| && out[m].localId == k {
      assert k in d.vals;
      var a :| 0 <= a < |d.keys| && d.keys[a] == k;
      var m := AssembleCovers(url, d, |d.keys|, a);
    }
  }

  /** The output is in order of first assigned appearance in the fetched list. */
  lemma EntriesInFetchOrder(url: string, userId: int, issues: seq<Issue>, pivot: Date)
    ensures var out := Actionables(url, userId, issues, pivot);
            && (forall m | 0 <= m < |out| :: out[m].localId in AssignedIds(issues, userId))
            && (forall m1, m2 | 0 <= m1 < m2 < |out| ::
                  FirstAssigned(issues, userId, out[m1].localId) < FirstAssigned(issues, userId, out[m2].localId))
  {
    var d := Survivors(issues, userId, pivot);
    var out := Actionables(url, userId, issues, pivot);
    var rank := FirstAssignedRank(issues, userId);
    assert out == Assemble(url, d, |d.keys|);
    DatedValues(issues, userId, pivot);
    DatedOrder(issues, userId, pivot);
    assert SurvivorsRanked(d, rank);
    AssembleRanked(url, d, |d.keys|, rank);
  }

  /** The filter's response is a list the reference selection determines. */
  lemma ActionablesMeetSelection(url: string, userId: int, issues: seq<Issue>, pivot: Date)
    ensures ReportedList(Actionables(url, userId, issues, pivot), url, userId, issues, pivot)
  {
    var out := Actionables(url, userId, issues, pivot);
    forall m | 0 <= m < |out|
      ensures out[m].localId in ReportedIds(issues, userId, pivot)
      ensures out[m] == ToEntry(url, issues[LastAssigned(issues, userId, out[m].localId)])
    {
      EntriesAreReported(url, userId, issues, pivot, m);
    }
    ReportedHaveEntries(url, userId, issues, pivot);
    EntriesInFetchOrder(url, userId, issues, pivot);
  }

  /** A response list is the filter's output exactly when it is the one the reference selection determines. */
  lemma ActionablesCharacterised(url: string, userId: int, issues: seq<Issue>, pivot: Date, out: seq<Entry>)
    ensures ReportedList(out, url, userId, issues, pivot) <==> out == Actionables(url, userId, issues, pivot)
  {
    ActionablesMeetSelection(url, userId, issues, pivot);
    if ReportedList(out, url, userId, issues, pivot) {
      ReportedListUnique(out, Actionables(url, userId, issues, pivot), url, userId, issues, pivot);
    }
  }
}
