/**
 * What `deleteCommentAndReplies` in server/routes/comments.js removes, and
 * in which order: the requested record and everything whose parent chain
 * leads to it, each reply before its parent. The recursion only stops when
 * the parent links below the requested record are free of cycles; a rank
 * that strictly grows from a record to its parent witnesses that.
 */
module Cascade {
  import opened CommentModel

  /** `rank` grows strictly from every record of `m` to the id its parentId names. */
  ghost predicate Ranked(m: map<Id, Comment>, rank: map<Id, nat>)
  {
    forall k :: k in m ==> k in rank && (m[k].parentId.Some? ==> m[k].parentId.value in rank && rank[k] < rank[m[k].parentId.value])
  }

  /** No chain of parentId links in `m` comes back to where it started. */
  ghost predicate Acyclic(m: map<Id, Comment>)
  {
    exists rank :: Ranked(m, rank)
  }

  /** The records of `m` that are `a` or lie below it: what the cascade from `a` removes. */
  ghost function Doomed(m: map<Id, Comment>, a: Id): set<Id>
  {
    set d | d in m && Descends(m, d, a)
  }

  /** Following parent links from a ranked record only climbs in rank. */
  lemma {:induction false} UpRank(m: map<Id, Comment>, rank: map<Id, nat>, d: Id, n: nat, a: Id)
    requires Ranked(m, rank) && n > 0 && Up(m, d, n) == Some(a)
    ensures d in m && d in rank && a in rank && rank[d] < rank[a]
    decreases n
  {
    var p := m[d].parentId.value;
    if n > 1 {
      UpRank(m, rank, p, n - 1, a);
    }
  }

  /** In a ranked store no record is its own ancestor. */
  lemma NoSelfAncestor(m: map<Id, Comment>, rank: map<Id, nat>, d: Id, n: nat)
    requires Ranked(m, rank) && n > 0
    ensures Up(m, d, n) != Some(d)
  {
    if Up(m, d, n) == Some(d) {
      UpRank(m, rank, d, n, d);
    }
  }

  /** A record whose parent lies below `a` lies below `a` too. */
  lemma DescendsChild(m: map<Id, Comment>, x: Id, p: Id, a: Id, n: nat)
    requires x in m && m[x].parentId == Some(p) && Up(m, p, n) == Some(a)
    ensures Up(m, x, n + 1) == Some(a) && Descends(m, x, a)
  {
  }

  /**
   * Two different replies of the same record have disjoint subtrees: once
   * the walk up from `d` has met `r1`, it never meets the sibling `r2`.
   */
  lemma SiblingOrder(m: map<Id, Comment>, rank: map<Id, nat>, p: Id, r1: Id, r2: Id, d: Id, n1: nat, n2: nat)
    requires Ranked(m, rank)
    requires r1 in m && r2 in m && m[r1].parentId == Some(p) && m[r2].parentId == Some(p) && r1 != r2
    requires n1 <= n2 && Up(m, d, n1) == Some(r1)
    ensures Up(m, d, n2) != Some(r2)
  {
    var k := n2 - n1;
    UpAdd(m, d, n1, k);
    if k > 0 {
      UpAdd(m, r1, 1, k - 1);
      UpAdd(m, r2, 1, k - 1);
      NoSelfAncestor(m, rank, r2, k);
    }
  }

  /** Nothing lies below two different replies of the same record. */
  lemma SiblingsApart(m: map<Id, Comment>, rank: map<Id, nat>, p: Id, r1: Id, r2: Id)
    requires Ranked(m, rank)
    requires r1 in m && r2 in m && m[r1].parentId == Some(p) && m[r2].parentId == Some(p) && r1 != r2
    ensures Doomed(m, r1) !! Doomed(m, r2)
  {
    forall d | d in Doomed(m, r1) ensures d !in Doomed(m, r2) {
      var n1: nat :| Up(m, d, n1) == Some(r1);
      forall n2: nat ensures Up(m, d, n2) != Some(r2) {
        if n1 <= n2 {
          SiblingOrder(m, rank, p, r1, r2, d, n1, n2);
        } else if Up(m, d, n2) == Some(r2) {
          SiblingOrder(m, rank, p, r2, r1, d, n2, n1);
        }
      }
    }
  }

  /** A record is never below one of its own descendants. */
  lemma ParentNotBelow(m: map<Id, Comment>, rank: map<Id, nat>, x: Id, y: Id, n: nat)
    requires Ranked(m, rank)
    ensures x in m && m[x].parentId == Some(y) ==> Up(m, y, n) != Some(x)
  {
    NoSelfAncestor(m, rank, x, n + 1);
  }

  /** Walks that stay within a smaller store agree with the walks in the larger one. */
  lemma {:induction false} UpSub(small: map<Id, Comment>, m: map<Id, Comment>, d: Id, n: nat)
    requires forall k :: k in small ==> k in m && small[k] == m[k]
    requires Up(small, d, n).Some?
    ensures Up(m, d, n) == Up(small, d, n)
    decreases n
  {
    if n > 0 {
      UpSub(small, m, small[d].parentId.value, n - 1);
    }
  }

  /** Removing records that do not lie below `a` leaves every walk up to `a` intact. */
  lemma {:induction false} UpRestrict(m: map<Id, Comment>, U: set<Id>, a: Id, d: Id, n: nat)
    requires forall x :: x in Doomed(m, a) ==> x !in U
    requires Up(m, d, n) == Some(a)
    ensures Up(m - U, d, n) == Some(a)
    decreases n
  {
    if n > 0 {
      assert d in Doomed(m, a);
      UpRestrict(m, U, a, m[d].parentId.value, n - 1);
    }
  }

  /** Removing records that do not lie below `a` leaves what lies below `a` unchanged. */
  lemma DoomedRestrict(m: map<Id, Comment>, U: set<Id>, a: Id)
    requires Doomed(m, a) !! U
    ensures Doomed(m - U, a) == Doomed(m, a)
  {
    forall d | d in Doomed(m - U, a) ensures d in Doomed(m, a) {
      var n :| Up(m - U, d, n) == Some(a);
      UpSub(m - U, m, d, n);
    }
    forall d | d in Doomed(m, a) ensures d in Doomed(m - U, a) {
      var n :| Up(m, d, n) == Some(a);
      UpRestrict(m, U, a, d, n);
    }
  }

  /** What lies below any of `rs`. */
  ghost function DoomedAll(m: map<Id, Comment>, rs: seq<Id>): set<Id>
  {
    if rs == [] then {} else DoomedAll(m, rs[..|rs| - 1]) + Doomed(m, rs[|rs| - 1])
  }

  /** A record lies below one of `rs` exactly when it lies below some element of `rs`. */
  lemma {:induction false} DoomedAllMembers(m: map<Id, Comment>, rs: seq<Id>)
    ensures forall x :: x in DoomedAll(m, rs) <==> exists j :: 0 <= j < |rs| && x in Doomed(m, rs[j])
  {
    if rs != [] {
      var init := rs[..|rs| - 1];
      DoomedAllMembers(m, init);
      forall x | x in DoomedAll(m, rs) ensures exists j :: 0 <= j < |rs| && x in Doomed(m, rs[j]) {
        if x !in Doomed(m, rs[|rs| - 1]) {
          assert x in DoomedAll(m, init);
          var j :| 0 <= j < |init| && x in Doomed(m, init[j]);
          assert rs[j] == init[j];
        }
      }
      forall x, j | 0 <= j < |rs| && x in Doomed(m, rs[j]) ensures x in DoomedAll(m, rs) {
        if j < |init| {
          assert init[j] == rs[j];
        }
      }
    }
  }

  /**
   * What lies below `id` is `id` itself (when stored) and what lies below
   * each of its replies.
   */
  lemma DoomedSplit(m: map<Id, Comment>, id: Id, replies: seq<Id>)
    requires forall k :: k in replies <==> k in m && m[k].parentId == Some(id)
    ensures Doomed(m, id) == DoomedAll(m, replies) + (if id in m then {id} else {})
  {
    DoomedAllMembers(m, replies);
    forall x | x in Doomed(m, id) && x != id ensures x in DoomedAll(m, replies) {
      var n: nat :| Up(m, x, n) == Some(id);
      assert n > 0;
      UpAdd(m, x, n - 1, 1);
      var y := Up(m, x, n - 1).value;
      assert y in replies;
      var j :| 0 <= j < |replies| && replies[j] == y;
      assert x in Doomed(m, replies[j]);
    }
    forall x | x in DoomedAll(m, replies) ensures x in Doomed(m, id) {
      var j :| 0 <= j < |replies| && x in Doomed(m, replies[j]);
      var n :| Up(m, x, n) == Some(replies[j]);
      UpAdd(m, x, n, 1);
    }
    if id in m {
      assert Up(m, id, 0) == Some(id);
    }
  }

  /** The next reply's subtree shares nothing with the subtrees of the replies before it. */
  lemma NextApart(m: map<Id, Comment>, rank: map<Id, nat>, id: Id, replies: seq<Id>, i: nat)
    requires Ranked(m, rank) && Distinct(replies) && i < |replies|
    requires forall k :: k in replies ==> k in m && m[k].parentId == Some(id)
    ensures Doomed(m, replies[i]) !! DoomedAll(m, replies[..i])
  {
    DoomedAllMembers(m, replies[..i]);
    forall x | x in DoomedAll(m, replies[..i]) ensures x !in Doomed(m, replies[i]) {
      var j :| 0 <= j < i && x in Doomed(m, replies[..i][j]);
      assert replies[..i][j] == replies[j];
      SiblingsApart(m, rank, id, replies[j], replies[i]);
    }
  }

  // ---------------------------------------------------------------------
  // The order of the removals
  // ---------------------------------------------------------------------

  /** In the removal log `L`, no record of `m` is removed after its parent. */
  ghost predicate RepliesFirst(m: map<Id, Comment>, L: seq<Id>)
  {
    forall i, j :: 0 <= i < j < |L| && L[j] in m ==> m[L[j]].parentId != Some(L[i])
  }

  /**
   * `L` is a cascade from `id` over `m`: it removes `id` and exactly what lies
   * below it, each once, each reply before its parent.
   */
  ghost predicate PostOrder(m: map<Id, Comment>, id: Id, L: seq<Id>)
  {
    Distinct(L) && (set x | x in L) == Doomed(m, id) + {id} && RepliesFirst(m, L)
  }

  /** Two logs in a row keep replies first when nothing in the second is a reply of something in the first. */
  lemma RepliesFirstJoin(m: map<Id, Comment>, A: seq<Id>, B: seq<Id>)
    requires RepliesFirst(m, A) && RepliesFirst(m, B)
    requires forall a, b :: a in A && b in B && b in m ==> m[b].parentId != Some(a)
    ensures RepliesFirst(m, A + B)
  {
    var L := A + B;
    forall i, j | 0 <= i < j < |L| && L[j] in m ensures m[L[j]].parentId != Some(L[i]) {
      if j < |A| {
        assert L[i] == A[i] && L[j] == A[j];
      } else if i >= |A| {
        assert L[i] == B[i - |A|] && L[j] == B[j - |A|];
      } else {
        assert L[i] in A && L[j] in B;
      }
    }
  }

  /** A log over a smaller store whose entries are all stored there reads the same over the larger store. */
  lemma RepliesFirstWiden(small: map<Id, Comment>, m: map<Id, Comment>, L: seq<Id>)
    requires RepliesFirst(small, L)
    requires forall k :: k in small ==> k in m && small[k] == m[k]
    requires forall x :: x in L ==> x in small
    ensures RepliesFirst(m, L)
  {
    forall i, j | 0 <= i < j < |L| && L[j] in m ensures m[L[j]].parentId != Some(L[i]) {
      assert L[j] in L;
    }
  }

  /**
   * Post-order is what keeps the store free of new orphans while the
   * cascade runs: after any prefix of the removals, no remaining record
   * names a removed record as its parent.
   */
  lemma NoDanglingMidway(m: map<Id, Comment>, id: Id, L: seq<Id>, t: nat)
    requires PostOrder(m, id, L) && t <= |L|
    ensures forall k :: k in m && k !in L[..t] && m[k].parentId.Some? ==> m[k].parentId.value !in L[..t]
  {
    forall k | k in m && k !in L[..t] && m[k].parentId.Some? ensures m[k].parentId.value !in L[..t] {
      var p := m[k].parentId.value;
      assert forall i :: 0 <= i < t ==> L[..t][i] == L[i];
      if p in L {
        assert p in (set x | x in L);
        assert p in Doomed(m, id) + {id};
        var n: nat := 0;
        if p != id {
          assert p in Doomed(m, id);
          n :| Up(m, p, n) == Some(id);
        }
        DescendsChild(m, k, p, id, n);
        assert k in Doomed(m, id);
        assert k in (set x | x in L);
        var j :| 0 <= j < |L| && L[j] == k;
        assert t <= j;
        forall i | 0 <= i < t ensures L[i] != p {
          assert m[L[j]].parentId != Some(L[i]);
        }
      }
    }
  }

  /** A reply of a record below one of `rs` is below one of `rs` as well. */
  lemma ChildStaysBelow(m: map<Id, Comment>, rs: seq<Id>, a: Id, b: Id)
    ensures b in m && m[b].parentId == Some(a) && a in DoomedAll(m, rs) ==> b in DoomedAll(m, rs)
  {
    DoomedAllMembers(m, rs);
    if b in m && m[b].parentId == Some(a) && a in DoomedAll(m, rs) {
      var j :| 0 <= j < |rs| && a in Doomed(m, rs[j]);
      var n: nat :| Up(m, a, n) == Some(rs[j]);
      DescendsChild(m, b, a, rs[j], n);
      assert b in Doomed(m, rs[j]);
    }
  }

  /**
   * One turn of the cascade's loop over the replies of `id`: removing the
   * subtree of the next reply from what is left removes exactly that subtree,
   * and appending its log keeps the whole log post-order.
   */
  lemma CascadeStep(m: map<Id, Comment>, rank: map<Id, nat>, id: Id, replies: seq<Id>, i: nat,
                    log: seq<Id>, sub: seq<Id>, after: map<Id, Comment>)
    requires Ranked(m, rank) && Distinct(replies) && i < |replies|
    requires forall k :: k in replies ==> k in m && m[k].parentId == Some(id)
    requires Distinct(log) && (set x | x in log) == DoomedAll(m, replies[..i]) && RepliesFirst(m, log)
    requires PostOrder(m - DoomedAll(m, replies[..i]), replies[i], sub)
    requires after == (m - DoomedAll(m, replies[..i])) - Doomed(m - DoomedAll(m, replies[..i]), replies[i])
    ensures after == m - DoomedAll(m, replies[..i + 1])
    ensures Distinct(log + sub)
    ensures (set x | x in log + sub) == DoomedAll(m, replies[..i + 1]) && RepliesFirst(m, log + sub)
  {
    var done, r := DoomedAll(m, replies[..i]), replies[i];
    var cur := m - done;
    NextApart(m, rank, id, replies, i);
    DoomedRestrict(m, done, r);
    assert replies[..i + 1][..i] == replies[..i] && replies[..i + 1][i] == r;
    assert DoomedAll(m, replies[..i + 1]) == done + Doomed(m, r);
    assert Up(m, r, 0) == Some(r);
    assert r in Doomed(m, r);
    assert (set x | x in sub) == Doomed(m, r);
    assert r in cur;
    forall x | x in sub ensures x in cur {
      assert x in (set y | y in sub);
      assert x in Doomed(cur, r) + {r};
    }
    RepliesFirstWiden(cur, m, sub);
    forall a, b | a in log && b in sub ensures a != b {
      assert a in (set x | x in log) && b in (set x | x in sub);
    }
    DistinctAppend(log, sub);
    forall a, b | a in log && b in sub && b in m ensures m[b].parentId != Some(a) {
      assert a in (set x | x in log) && b in (set x | x in sub);
      ChildStaysBelow(m, replies[..i], a, b);
    }
    RepliesFirstJoin(m, log, sub);
  }

  /** The cascade ends by removing `id` itself, after everything below it. */
  lemma CascadeLast(m: map<Id, Comment>, rank: map<Id, nat>, id: Id, replies: seq<Id>, log: seq<Id>)
    requires Ranked(m, rank)
    requires forall k :: k in replies <==> k in m && m[k].parentId == Some(id)
    requires Distinct(log) && (set x | x in log) == DoomedAll(m, replies) && RepliesFirst(m, log)
    ensures PostOrder(m, id, log + [id])
    ensures m - DoomedAll(m, replies) - {id} == m - Doomed(m, id)
  {
    DoomedSplit(m, id, replies);
    forall a, b | a in log && b in [id] && b in m ensures m[b].parentId != Some(a) {
      assert a in (set x | x in log);
      assert a in Doomed(m, id);
      var n: nat :| Up(m, a, n) == Some(id);
      ParentNotBelow(m, rank, id, a, n);
    }
    RepliesFirstJoin(m, log, [id]);
    DoomedAllMembers(m, replies);
    forall a, b | a in log && b in [id] ensures a != b {
      assert a in (set x | x in log);
      var j :| 0 <= j < |replies| && a in Doomed(m, replies[j]);
      var n: nat :| Up(m, a, n) == Some(replies[j]);
      ParentNotBelow(m, rank, replies[j], id, n);
    }
    DistinctAppend(log, [id]);
  }

  // ---------------------------------------------------------------------
  // Ranks survive removals and fresh leaves
  // ---------------------------------------------------------------------

  /** Removing records keeps a store ranked. */
  lemma RankedRemove(m: map<Id, Comment>, rank: map<Id, nat>, U: set<Id>)
    requires Ranked(m, rank)
    ensures Ranked(m - U, rank)
  {
  }

  /**
   * Adding a record under an id nothing stored names as a parent keeps a
   * store acyclic: shift every rank up by one and give the newcomer rank 0.
   */
  lemma RankedAddLeaf(m: map<Id, Comment>, rank: map<Id, nat>, c: Comment)
    requires Ranked(m, rank)
    requires c.id !in m && c.parentId != Some(c.id)
    requires forall k :: k in m ==> m[k].parentId != Some(c.id)
    ensures Ranked(m[c.id := c], RankWithLeaf(m, rank, c))
  {
  }

  /** The ranks `RankedAddLeaf` uses. */
  ghost function RankWithLeaf(m: map<Id, Comment>, rank: map<Id, nat>, c: Comment): map<Id, nat>
  {
    var shifted := map k | k in rank :: rank[k] + 1;
    var withParent := if c.parentId.Some? && c.parentId.value !in shifted then shifted[c.parentId.value := 1] else shifted;
    withParent[c.id := 0]
  }
}
