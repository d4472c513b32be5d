/**
 * The comment record shared by the server routes and the client, and the
 * parent-link vocabulary (filtering by parent, following parentId upwards,
 * chains from a root) that the tree builder and the cascade delete rely on.
 */
module CommentModel {

  type Id = nat
  type UserId = nat

  /** A nullable value: `None` stands for JavaScript's `null` / `undefined`. */
  datatype Option<T> = None | Some(value: T)

  /**
   * One stored comment (server/models/Comment.js). `parentId == None` marks a
   * root comment. Timestamps are abstract integers ordered like the dates.
   */
  datatype Comment = Comment(
    id: Id,
    userId: UserId,
    content: string,
    parentId: Option<Id>,
    createdAt: int,
    updatedAt: int)

  /** The ids of `cs`, in order. */
  function Ids(cs: seq<Comment>): seq<Id>
  {
    seq(|cs|, i requires 0 <= i < |cs| => cs[i].id)
  }

  predicate Distinct<T(==)>(xs: seq<T>)
  {
    forall i, j :: 0 <= i < j < |xs| ==> xs[i] != xs[j]
  }

  /** Two lists without repeats and without a common element make a list without repeats. */
  lemma DistinctAppend<T>(A: seq<T>, B: seq<T>)
    requires Distinct(A) && Distinct(B)
    requires forall a, b :: a in A && b in B ==> a != b
    ensures Distinct(A + B)
  {
    var L := A + B;
    forall i, j | 0 <= i < j < |L| ensures L[i] != L[j] {
      if j < |A| {
        assert L[i] == A[i] && L[j] == A[j];
      } else if i >= |A| {
        assert L[i] == B[i - |A|] && L[j] == B[j - |A|];
      } else {
        assert L[i] in A && L[j] in B;
      }
    }
  }

  /** A list holds no more different elements than it is long. */
  lemma {:induction false} ElementsBound<T>(xs: seq<T>)
    ensures |set x | x in xs| <= |xs|
  {
    if xs != [] {
      ElementsBound(xs[1..]);
      assert (set x | x in xs) == (set x | x in xs[1..]) + {xs[0]};
    }
  }

  /** A list of distinct elements drawn from a set is no longer than the set is large. */
  lemma {:induction false} DistinctBound<T>(xs: seq<T>, S: set<T>)
    requires Distinct(xs) && forall x :: x in xs ==> x in S
    ensures |xs| <= |S|
  {
    if xs != [] {
      assert forall x :: x in xs[1..] ==> x in S - {xs[0]};
      DistinctBound(xs[1..], S - {xs[0]});
    }
  }

  /** Ascending by creation time, the order the store's `sort({ createdAt: 1 })` yields. */
  predicate Sorted(cs: seq<Comment>)
  {
    forall i, j :: 0 <= i < j < |cs| ==> cs[i].createdAt <= cs[j].createdAt
  }

  /** The records of `s` whose `parentId` is `parent`, in the order of `s`. */
  function Where(s: seq<Comment>, parent: Option<Id>): seq<Comment>
  {
    if s == [] then []
    else Where(s[..|s| - 1], parent) + (if s[|s| - 1].parentId == parent then [s[|s| - 1]] else [])
  }

  /** `Where` keeps exactly the records with the given parent. */
  lemma {:induction false} WhereMembers(s: seq<Comment>, parent: Option<Id>)
    ensures forall c :: c in Where(s, parent) <==> c in s && c.parentId == parent
  {
    if s != [] {
      var init := s[..|s| - 1];
      WhereMembers(init, parent);
      assert s == init + [s[|s| - 1]];
    }
  }

  /** Filtering an ascending snapshot leaves it ascending. */
  lemma {:induction false} WhereSorted(s: seq<Comment>, parent: Option<Id>)
    requires Sorted(s)
    ensures Sorted(Where(s, parent))
  {
    if s != [] {
      var init := s[..|s| - 1];
      assert Sorted(init);
      WhereSorted(init, parent);
      WhereMembers(init, parent);
      var w := Where(init, parent);
      forall c | c in w ensures c.createdAt <= s[|s| - 1].createdAt {
        var i :| 0 <= i < |init| && init[i] == c;
      }
    }
  }

  /** Filtering a snapshot with unique ids leaves the ids unique. */
  lemma {:induction false} WhereDistinct(s: seq<Comment>, parent: Option<Id>)
    requires Distinct(Ids(s))
    ensures Distinct(Ids(Where(s, parent)))
  {
    if s != [] {
      var init := s[..|s| - 1];
      assert Ids(init) == Ids(s)[..|s| - 1];
      WhereDistinct(init, parent);
      WhereMembers(init, parent);
      var w := Where(init, parent);
      var last := s[|s| - 1];
      assert Ids(s)[|s| - 1] == last.id;
      forall c | c in w ensures c.id != last.id {
        var i :| 0 <= i < |init| && init[i] == c;
        assert Ids(s)[i] == c.id;
      }
      var extra := if last.parentId == parent then [last] else [];
      assert Where(s, parent) == w + extra;
      assert Ids(w + extra) == Ids(w) + Ids(extra);
    }
  }

  // ---------------------------------------------------------------------
  // Following parentId links
  // ---------------------------------------------------------------------

  /**
   * The id reached from `k` after following `n` parentId links through the
   * records of `m`; `None` once a link is null or starts at a record that is
   * not in `m`. The last id reached need not be a record of `m`.
   */
  function Up(m: map<Id, Comment>, k: Id, n: nat): Option<Id>
    decreases n
  {
    if n == 0 then Some(k)
    else if k in m && m[k].parentId.Some? then Up(m, m[k].parentId.value, n - 1)
    else None
  }

  /** Walking `a` links and then `b` more is walking `a + b` links. */
  lemma {:induction false} UpAdd(m: map<Id, Comment>, k: Id, a: nat, b: nat)
    ensures Up(m, k, a + b) == (if Up(m, k, a).Some? then Up(m, Up(m, k, a).value, b) else None)
    decreases a
  {
    if a > 0 && k in m && m[k].parentId.Some? {
      UpAdd(m, m[k].parentId.value, a - 1, b);
    } else if a > 0 {
      assert Up(m, k, a) == None;
    }
  }

  /** Once the walk stops, it stays stopped. */
  lemma UpStopped(m: map<Id, Comment>, k: Id, a: nat, b: nat)
    requires Up(m, k, a) == None
    ensures Up(m, k, a + b) == None
  {
    UpAdd(m, k, a, b);
  }

  /** `d` is `a` or a descendant of `a`: `d`'s parent chain in `m` reaches `a`. */
  ghost predicate Descends(m: map<Id, Comment>, d: Id, a: Id)
  {
    exists n: nat :: Up(m, d, n) == Some(a)
  }

  // ---------------------------------------------------------------------
  // Chains from a root
  // ---------------------------------------------------------------------

  /** Every record in `m` is stored under its own id. */
  ghost predicate Keyed(m: map<Id, Comment>)
  {
    forall k :: k in m ==> m[k].id == k
  }

  /**
   * `p` lists ids of `m` from a root (null parentId) down to `p[|p| - 1]`,
   * each one the parent of the next.
   */
  ghost predicate Chain(m: map<Id, Comment>, p: seq<Id>)
  {
    && |p| > 0
    && p[0] in m && m[p[0]].parentId == None
    && (forall i :: 0 < i < |p| ==> p[i] in m && m[p[i]].parentId == Some(p[i - 1]))
  }

  /** The parent a record placed below `p` names: null below nothing, else `p`'s last id. */
  function ParentOf(p: seq<Id>): Option<Id>
  {
    if p == [] then None else Some(p[|p| - 1])
  }

  /** A chain (or nothing) extended by a record naming its last id as parent is a chain. */
  lemma ChainExtend(m: map<Id, Comment>, p: seq<Id>, y: Id)
    requires p == [] || Chain(m, p)
    requires y in m && m[y].parentId == ParentOf(p)
    ensures Chain(m, p + [y])
  {
    var p' := p + [y];
    assert p'[|p|] == y;
    forall j | 0 < j < |p'| ensures p'[j] in m && m[p'[j]].parentId == Some(p'[j - 1]) {
      if j < |p| {
        assert p'[j] == p[j] && p'[j - 1] == p[j - 1];
      } else {
        assert p'[j - 1] == p[|p| - 1];
      }
    }
  }

  /** The parent chain of `k` reaches a root of `m`. */
  ghost predicate Rooted(m: map<Id, Comment>, k: Id)
  {
    exists p :: Chain(m, p) && p[|p| - 1] == k
  }

  /** A chain never visits an id twice: each record has a single parent. */
  lemma {:induction false} ChainDistinct(m: map<Id, Comment>, p: seq<Id>)
    requires Chain(m, p)
    ensures Distinct(p)
    decreases |p|
  {
    if |p| > 1 {
      var n := |p| - 1;
      var q := p[..n];
      assert Chain(m, q);
      ChainDistinct(m, q);
      forall i, j | 0 <= i < j < |p| ensures p[i] != p[j] {
        if j < n {
          assert q[i] == p[i] && q[j] == p[j];
        } else if i == 0 {
          assert m[p[j]].parentId == Some(p[n - 1]);
        } else {
          assert m[p[i]].parentId == Some(q[i - 1]);
          assert m[p[j]].parentId == Some(q[n - 1]);
        }
      }
    }
  }

  /** Below the root, the last record of a chain points at the one before it. */
  lemma ChainLast(m: map<Id, Comment>, p: seq<Id>)
    requires Chain(m, p)
    ensures p[|p| - 1] in m
    ensures |p| > 1 ==> m[p[|p| - 1]].parentId == Some(p[|p| - 2])
  {
  }

  /** A chain whose last record is a root is that root alone. */
  lemma ChainEndingAtRoot(m: map<Id, Comment>, p: seq<Id>)
    requires Chain(m, p) && m[p[|p| - 1]].parentId == None
    ensures |p| == 1
  {
    ChainLast(m, p);
  }

  /** Two chains that end at the same id are the same chain. */
  lemma {:induction false} ChainUnique(m: map<Id, Comment>, p: seq<Id>, q: seq<Id>)
    requires Chain(m, p) && Chain(m, q) && p[|p| - 1] == q[|q| - 1]
    ensures p == q
    decreases |p|
  {
    if |p| == 1 {
      ChainEndingAtRoot(m, q);
    } else {
      assert m[p[|p| - 1]].parentId == Some(p[|p| - 2]);
      assert |q| != 1;
      var p', q' := p[..|p| - 1], q[..|q| - 1];
      assert Chain(m, p') && Chain(m, q');
      ChainUnique(m, p', q');
      assert p == p' + [p[|p| - 1]] && q == q' + [q[|q| - 1]];
    }
  }

  /** Walking up from the end of a chain retraces it and then stops at the root's null parent. */
  lemma {:induction false} ChainUp(m: map<Id, Comment>, p: seq<Id>, j: nat)
    requires Chain(m, p) && j <= |p|
    ensures j < |p| ==> Up(m, p[|p| - 1], j) == Some(p[|p| - 1 - j])
    ensures j == |p| ==> Up(m, p[|p| - 1], j) == None
    decreases j
  {
    if j > 0 {
      var last := |p| - 1;
      if |p| == 1 {
        assert Up(m, p[0], 1) == None;
      } else {
        var q := p[..last];
        assert Chain(m, q);
        ChainUp(m, q, j - 1);
        assert m[p[last]].parentId == Some(q[|q| - 1]);
      }
    }
  }

  /** A record whose parent chain loops back on itself is never reached from a root. */
  lemma CycleNotRooted(m: map<Id, Comment>, k: Id, n: nat)
    requires n >= 1 && Up(m, k, n) == Some(k)
    ensures !Rooted(m, k)
  {
    if Rooted(m, k) {
      var p :| Chain(m, p) && p[|p| - 1] == k;
      ChainUp(m, p, |p|);
      CycleNeverStops(m, k, n, |p|);
      assert false;
    }
  }

  lemma {:induction false} CycleNeverStops(m: map<Id, Comment>, k: Id, n: nat, t: nat)
    requires n >= 1 && Up(m, k, n) == Some(k)
    ensures Up(m, k, t).Some?
    decreases t
  {
    if t < n {
      if Up(m, k, t) == None {
        UpStopped(m, k, t, n - t);
      }
    } else {
      UpAdd(m, k, n, t - n);
      CycleNeverStops(m, k, n, t - n);
    }
  }
}
