/**
 * The GET handler of server/routes/comments.js: a flat snapshot of comments,
 * ascending by creation time, becomes a forest of nested replies in two
 * passes (an id->node map, then a parent-link walk).
 */
module TreeBuilder {
  import opened CommentModel

  /** A comment with its nested replies, as the GET handler serialises it. */
  datatype Node = Node(c: Comment, replies: seq<Node>)

  /** The comments of a list of nodes, in order. */
  function Comments(f: seq<Node>): seq<Comment>
  {
    seq(|f|, i requires 0 <= i < |f| => f[i].c)
  }

  /** Every node of a forest in pre-order, the order the JSON output lists them. */
  function AllNodes(f: seq<Node>): seq<Node>
    decreases f
  {
    if f == [] then [] else [f[0]] + AllNodes(f[0].replies) + AllNodes(f[1..])
  }

  /** The ids of every node of a forest. */
  ghost function IdsIn(f: seq<Node>): set<Id>
  {
    set n | n in AllNodes(f) :: n.c.id
  }

  // ---------------------------------------------------------------------
  // Pass one and pass two, as specification functions
  // ---------------------------------------------------------------------

  /**
   * The id->record map of pass one: one entry per id of the snapshot, a
   * later record overwriting an earlier one with the same id.
   */
  function Index(s: seq<Comment>): map<Id, Comment>
  {
    if s == [] then map[] else Index(s[..|s| - 1])[s[|s| - 1].id := s[|s| - 1]]
  }

  /** Pass one files every id of the snapshot, and only those, each under a record of the snapshot carrying it. */
  lemma {:induction false} IndexContents(s: seq<Comment>)
    ensures forall c :: c in s ==> c.id in Index(s)
    ensures forall k :: k in Index(s) ==> Index(s)[k].id == k && Index(s)[k] in s
  {
    if s != [] {
      var init, last := s[..|s| - 1], s[|s| - 1];
      IndexContents(init);
      assert s == init + [last];
    }
  }

  /** With unique ids, pass one files every record under its own id. */
  lemma {:induction false} IndexFinds(s: seq<Comment>)
    requires Distinct(Ids(s))
    ensures forall c :: c in s ==> c.id in Index(s) && Index(s)[c.id] == c
  {
    IndexContents(s);
    if s != [] {
      var init, last := s[..|s| - 1], s[|s| - 1];
      assert Ids(init) == Ids(s)[..|s| - 1];
      IndexFinds(init);
      forall c | c in init ensures c.id != last.id {
        var i :| 0 <= i < |init| && init[i] == c;
        assert Ids(s)[i] == c.id && Ids(s)[|s| - 1] == last.id;
      }
      assert s == init + [last];
    }
  }

  /** The ids of the root records (null parentId), in snapshot order. */
  function RootIds(s: seq<Comment>): seq<Id>
  {
    Ids(Where(s, None))
  }

  /** Pass two's reply lists: for each record of the snapshot, the ids of its replies in snapshot order. */
  function Links(s: seq<Comment>): map<Id, seq<Id>>
  {
    map k | k in Index(s) :: Ids(Where(s, Some(k)))
  }

  // ---------------------------------------------------------------------
  // Unfolding the id links into nested nodes
  // ---------------------------------------------------------------------

  /**
   * `children` lists, for each record of `byId`, exactly the records whose
   * parentId names it, each once.
   */
  ghost predicate Linked(byId: map<Id, Comment>, children: map<Id, seq<Id>>)
  {
    && Keyed(byId)
    && children.Keys == byId.Keys
    && (forall x :: x in children ==> Distinct(children[x]))
    && (forall x, y :: x in children && y in children[x] ==> y in byId && byId[y].parentId == Some(x))
    && (forall x, y :: x in byId && y in byId && byId[y].parentId == Some(x) ==> y in children[x])
  }

  /** `path` is a chain (or empty) and each of `ids` names its last id as parent (is a root when `path` is empty). */
  ghost predicate Continues(byId: map<Id, Comment>, path: seq<Id>, ids: seq<Id>)
  {
    && (path == [] || Chain(byId, path))
    && forall i :: 0 <= i < |ids| ==> ids[i] in byId && byId[ids[i]].parentId == ParentOf(path)
  }

  /** The ids on a chain are distinct records of `m`, so a chain is no longer than `m` is large. */
  lemma ChainBound(m: map<Id, Comment>, p: seq<Id>)
    requires Chain(m, p)
    ensures Distinct(p) && |p| <= |m|
  {
    ChainDistinct(m, p);
    forall y | y in p ensures y in m.Keys {
      var i :| 0 <= i < |p| && p[i] == y;
    }
    DistinctBound(p, m.Keys);
  }

  /** The recorded replies of the last record of a chain continue that chain. */
  lemma RepliesContinue(byId: map<Id, Comment>, children: map<Id, seq<Id>>, p: seq<Id>)
    requires Linked(byId, children) && Chain(byId, p)
    ensures p[|p| - 1] in children && Continues(byId, p, children[p[|p| - 1]])
  {
    var x := p[|p| - 1];
    forall i | 0 <= i < |children[x]| ensures children[x][i] in byId && byId[children[x][i]].parentId == Some(x) {
      assert children[x][i] in children[x];
    }
  }

  /** A record continuing a chain extends it, is new to it, and its replies continue the longer chain. */
  lemma ChainStep(byId: map<Id, Comment>, children: map<Id, seq<Id>>, path: seq<Id>, x: Id)
    requires Linked(byId, children) && (path == [] || Chain(byId, path))
    requires x in byId && byId[x].parentId == ParentOf(path)
    ensures Chain(byId, path + [x])
    ensures x in children && Continues(byId, path + [x], children[x])
    ensures x !in path
    ensures |path + [x]| <= |byId|
  {
    var p := path + [x];
    ChainExtend(byId, path, x);
    ChainBound(byId, p);
    RepliesContinue(byId, children, p);
    assert p[|p| - 1] == x;
    forall i | 0 <= i < |path| ensures path[i] != x {
      assert p[i] == path[i];
    }
  }

  /**
   * The nodes for `ids`, each carrying, recursively, the nodes of its
   * replies: what serialising pass two's shared node objects yields.
   * `path` is the chain of ancestors above `ids`; it only serves the
   * termination argument, since records sitting on a parent cycle are never
   * reached from a root.
   */
  function AssembleSeq(byId: map<Id, Comment>, children: map<Id, seq<Id>>, ghost path: seq<Id>, ids: seq<Id>): (f: seq<Node>)
    requires Linked(byId, children) && Continues(byId, path, ids)
    ensures |f| == |ids|
    decreases |byId| - |path|, |ids|
  {
    if ids == [] then []
    else
      var x := ids[0];
      ChainStep(byId, children, path, x);
      ContinuesRest(byId, path, ids);
      [Node(byId[x], AssembleSeq(byId, children, path + [x], children[x]))]
        + AssembleSeq(byId, children, path, ids[1..])
  }

  /** The nodes of a level carry the records of its ids, in the same order. */
  lemma {:induction false} AssembleRecords(byId: map<Id, Comment>, children: map<Id, seq<Id>>, path: seq<Id>, ids: seq<Id>)
    requires Linked(byId, children) && Continues(byId, path, ids)
    ensures var f := AssembleSeq(byId, children, path, ids);
      forall i :: 0 <= i < |ids| ==> f[i].c == byId[ids[i]]
    decreases |ids|
  {
    if ids != [] {
      ContinuesRest(byId, path, ids);
      AssembleRecords(byId, children, path, ids[1..]);
      AllNodesUnfold(byId, children, path, ids);
      var f := AssembleSeq(byId, children, path, ids);
      var rest := AssembleSeq(byId, children, path, ids[1..]);
      forall i | 1 <= i < |ids| ensures f[i].c == byId[ids[i]] {
        assert f[i] == rest[i - 1] && ids[i] == ids[1..][i - 1];
      }
    }
  }

  /** Dropping the first id of a level leaves a level. */
  lemma ContinuesRest(byId: map<Id, Comment>, path: seq<Id>, ids: seq<Id>)
    requires Continues(byId, path, ids) && ids != []
    ensures Continues(byId, path, ids[1..])
  {
    forall i | 0 <= i < |ids| - 1 ensures ids[1..][i] in byId && byId[ids[1..][i]].parentId == ParentOf(path) {
      assert ids[1..][i] == ids[i + 1];
    }
  }

  /** `n`'s replies are the nodes of the ids recorded for it, in recorded order. */
  ghost predicate Follows(byId: map<Id, Comment>, children: map<Id, seq<Id>>, n: Node)
  {
    && n.c.id in children
    && |n.replies| == |children[n.c.id]|
    && forall j :: 0 <= j < |n.replies| ==> children[n.c.id][j] in byId && n.replies[j].c == byId[children[n.c.id][j]]
  }

  /** The pre-order listing unfolds one level. */
  lemma AllNodesUnfold(byId: map<Id, Comment>, children: map<Id, seq<Id>>, path: seq<Id>, ids: seq<Id>)
    requires Linked(byId, children) && Continues(byId, path, ids) && ids != []
    ensures ids[0] in children && Continues(byId, path + [ids[0]], children[ids[0]])
    ensures
      var f := AssembleSeq(byId, children, path, ids);
      AllNodes(f) == [f[0]] + AllNodes(AssembleSeq(byId, children, path + [ids[0]], children[ids[0]]))
        + AllNodes(AssembleSeq(byId, children, path, ids[1..]))
    ensures AssembleSeq(byId, children, path, ids)[0].c == byId[ids[0]]
    ensures AssembleSeq(byId, children, path, ids)[0].replies == AssembleSeq(byId, children, path + [ids[0]], children[ids[0]])
    ensures AssembleSeq(byId, children, path, ids)[1..] == AssembleSeq(byId, children, path, ids[1..])
  {
    ChainStep(byId, children, path, ids[0]);
    var f := AssembleSeq(byId, children, path, ids);
    assert f[1..] == AssembleSeq(byId, children, path, ids[1..]);
  }

  /** The first node of a level carries exactly its recorded replies. */
  lemma HeadFollows(byId: map<Id, Comment>, children: map<Id, seq<Id>>, path: seq<Id>, ids: seq<Id>)
    requires Linked(byId, children) && Continues(byId, path, ids) && ids != []
    ensures Follows(byId, children, AssembleSeq(byId, children, path, ids)[0])
  {
    var x := ids[0];
    AllNodesUnfold(byId, children, path, ids);
    var n := AssembleSeq(byId, children, path, ids)[0];
    AssembleRecords(byId, children, path + [x], children[x]);
    assert n.c == byId[x] && n.c.id == x;
    assert n.replies == AssembleSeq(byId, children, path + [x], children[x]);
  }

  /** Every assembled node carries exactly its recorded replies. */
  lemma {:induction false} AssembleFollows(byId: map<Id, Comment>, children: map<Id, seq<Id>>, path: seq<Id>, ids: seq<Id>)
    requires Linked(byId, children) && Continues(byId, path, ids)
    ensures forall n :: n in AllNodes(AssembleSeq(byId, children, path, ids)) ==> Follows(byId, children, n)
    decreases |byId| - |path|, |ids|
  {
    if ids != [] {
      var x := ids[0];
      ChainStep(byId, children, path, x);
      AllNodesUnfold(byId, children, path, ids);
      AssembleFollows(byId, children, path + [x], children[x]);
      AssembleFollows(byId, children, path, ids[1..]);
      HeadFollows(byId, children, path, ids);
    }
  }

  /** `z` ends a chain that runs through `path` and then one of `ids`. */
  ghost predicate Under(byId: map<Id, Comment>, path: seq<Id>, ids: seq<Id>, z: Id)
  {
    exists q :: Chain(byId, q) && q[|q| - 1] == z && |path| < |q| && q[..|path|] == path && q[|path|] in ids
  }

  /** The record that starts a level is under that level. */
  lemma UnderHere(byId: map<Id, Comment>, path: seq<Id>, ids: seq<Id>)
    requires ids != [] && Chain(byId, path + [ids[0]])
    ensures Under(byId, path, ids, ids[0])
  {
    var q := path + [ids[0]];
    assert q[..|path|] == path && q[|path|] == ids[0] && q[|q| - 1] == ids[0];
  }

  /** What is under a reply of `ids[0]` is under `ids`. */
  lemma UnderReply(byId: map<Id, Comment>, path: seq<Id>, ids: seq<Id>, cs: seq<Id>, z: Id)
    requires ids != [] && Under(byId, path + [ids[0]], cs, z)
    ensures Under(byId, path, ids, z)
  {
    var path' := path + [ids[0]];
    var q :| Chain(byId, q) && q[|q| - 1] == z && |path'| < |q| && q[..|path'|] == path' && q[|path'|] in cs;
    assert q[..|path|] == q[..|path'|][..|path|];
    assert q[|path|] == q[..|path'|][|path|];
  }

  /** What is under the rest of a level is under the whole level. */
  lemma UnderRest(byId: map<Id, Comment>, path: seq<Id>, ids: seq<Id>, z: Id)
    requires ids != [] && Under(byId, path, ids[1..], z)
    ensures Under(byId, path, ids, z)
  {
    var q :| Chain(byId, q) && q[|q| - 1] == z && |path| < |q| && q[..|path|] == path && q[|path|] in ids[1..];
    assert q[|path|] in ids;
  }

  /** A level's nodes are sound once its first subtree and the rest of the level are. */
  lemma SoundStep(byId: map<Id, Comment>, children: map<Id, seq<Id>>, path: seq<Id>, ids: seq<Id>)
    requires Linked(byId, children) && Continues(byId, path, ids) && ids != []
    requires ids[0] in children && Chain(byId, path + [ids[0]])
    requires Continues(byId, path + [ids[0]], children[ids[0]]) && Continues(byId, path, ids[1..])
    requires forall n :: n in AllNodes(AssembleSeq(byId, children, path + [ids[0]], children[ids[0]])) ==>
      n.c.id in byId && byId[n.c.id] == n.c && Under(byId, path + [ids[0]], children[ids[0]], n.c.id)
    requires forall n :: n in AllNodes(AssembleSeq(byId, children, path, ids[1..])) ==>
      n.c.id in byId && byId[n.c.id] == n.c && Under(byId, path, ids[1..], n.c.id)
    ensures forall n :: n in AllNodes(AssembleSeq(byId, children, path, ids)) ==>
      n.c.id in byId && byId[n.c.id] == n.c && Under(byId, path, ids, n.c.id)
  {
    var x := ids[0];
    AllNodesUnfold(byId, children, path, ids);
    var f := AssembleSeq(byId, children, path, ids);
    var A := AllNodes(AssembleSeq(byId, children, path + [x], children[x]));
    var B := AllNodes(AssembleSeq(byId, children, path, ids[1..]));
    assert f[0].c == byId[x] && byId[x].id == x;
    UnderHere(byId, path, ids);
    forall n | n in A ensures Under(byId, path, ids, n.c.id) {
      UnderReply(byId, path, ids, children[x], n.c.id);
    }
    forall n | n in B ensures Under(byId, path, ids, n.c.id) {
      UnderRest(byId, path, ids, n.c.id);
    }
  }

  /** Every assembled node is a record of `byId` reached by a chain through `path` and `ids`. */
  lemma {:induction false} AssembleSound(byId: map<Id, Comment>, children: map<Id, seq<Id>>, path: seq<Id>, ids: seq<Id>)
    requires Linked(byId, children) && Continues(byId, path, ids)
    ensures forall n :: n in AllNodes(AssembleSeq(byId, children, path, ids)) ==>
      n.c.id in byId && byId[n.c.id] == n.c && Under(byId, path, ids, n.c.id)
    decreases |byId| - |path|, |ids|
  {
    if ids != [] {
      var x := ids[0];
      ChainStep(byId, children, path, x);
      ContinuesRest(byId, path, ids);
      AssembleSound(byId, children, path + [x], children[x]);
      AssembleSound(byId, children, path, ids[1..]);
      SoundStep(byId, children, path, ids);
    }
  }

  /** The ids of a non-empty forest: its first node's, those below it, and those of the rest. */
  lemma IdsInSplit(f: seq<Node>)
    requires f != []
    ensures IdsIn(f) == {f[0].c.id} + IdsIn(f[0].replies) + IdsIn(f[1..])
  {
    assert AllNodes(f) == [f[0]] + AllNodes(f[0].replies) + AllNodes(f[1..]);
  }

  /** A chain through `path` and `x` either stops at `x` or goes on to one of `x`'s replies. */
  lemma ChainThrough(byId: map<Id, Comment>, children: map<Id, seq<Id>>, path: seq<Id>, x: Id, q: seq<Id>)
    requires Linked(byId, children) && Chain(byId, q) && |path| < |q| && q[..|path|] == path && q[|path|] == x
    ensures q[..|path| + 1] == path + [x]
    ensures |q| == |path| + 1 ==> q[|q| - 1] == x
    ensures |q| > |path| + 1 ==> x in children && q[|path| + 1] in children[x]
  {
    assert q[..|path| + 1] == q[..|path|] + [q[|path|]];
    if |q| > |path| + 1 {
      assert byId[q[|path| + 1]].parentId == Some(q[|path|]);
    }
  }

  /** Every record reached by a chain through `path` and `ids` is assembled. */
  lemma {:induction false} AssembleComplete(byId: map<Id, Comment>, children: map<Id, seq<Id>>, path: seq<Id>, ids: seq<Id>, q: seq<Id>)
    requires Linked(byId, children) && Continues(byId, path, ids)
    requires Chain(byId, q) && |path| < |q| && q[..|path|] == path && q[|path|] in ids
    ensures q[|q| - 1] in IdsIn(AssembleSeq(byId, children, path, ids))
    decreases |byId| - |path|, |ids|
  {
    var x := ids[0];
    IdsInLevel(byId, children, path, ids);
    if q[|path|] == x {
      ChainThrough(byId, children, path, x, q);
      if |q| > |path| + 1 {
        AssembleComplete(byId, children, path + [x], children[x], q);
      }
    } else {
      assert q[|path|] in ids[1..];
      AssembleComplete(byId, children, path, ids[1..], q);
    }
  }

  /** The ids assembled for a level: its first id, those below it, and those of the rest of the level. */
  lemma IdsInLevel(byId: map<Id, Comment>, children: map<Id, seq<Id>>, path: seq<Id>, ids: seq<Id>)
    requires Linked(byId, children) && Continues(byId, path, ids) && ids != []
    ensures ids[0] in children && Chain(byId, path + [ids[0]]) && |path + [ids[0]]| <= |byId|
    ensures Continues(byId, path + [ids[0]], children[ids[0]]) && Continues(byId, path, ids[1..])
    ensures IdsIn(AssembleSeq(byId, children, path, ids))
      == {ids[0]} + IdsIn(AssembleSeq(byId, children, path + [ids[0]], children[ids[0]]))
         + IdsIn(AssembleSeq(byId, children, path, ids[1..]))
  {
    ChainStep(byId, children, path, ids[0]);
    ContinuesRest(byId, path, ids);
    AllNodesUnfold(byId, children, path, ids);
    var f := AssembleSeq(byId, children, path, ids);
    IdsInSplit(f);
    assert f[0].c.id == ids[0];
  }

  /** Two chains that end at the same id coincide. */
  lemma ChainsMeet(m: map<Id, Comment>, p: seq<Id>, q: seq<Id>)
    ensures Chain(m, p) && Chain(m, q) && p[|p| - 1] == q[|q| - 1] ==> p == q
  {
    if Chain(m, p) && Chain(m, q) && p[|p| - 1] == q[|q| - 1] {
      ChainUnique(m, p, q);
    }
  }

  /** A pre-order listing of distinct ids, extended by a node and a second disjoint listing. */
  lemma DistinctJoin(n: Node, A: seq<Node>, B: seq<Node>)
    requires Distinct(Ids(Comments(A))) && Distinct(Ids(Comments(B)))
    requires forall a :: a in A ==> a.c.id != n.c.id
    requires forall b :: b in B ==> b.c.id != n.c.id
    requires forall a, b :: a in A && b in B ==> a.c.id != b.c.id
    ensures Distinct(Ids(Comments([n] + A + B)))
  {
    var L := Ids(Comments([n] + A + B));
    forall i, j | 0 <= i < j < |L| ensures L[i] != L[j] {
      if i == 0 {
        if j <= |A| {
          assert A[j - 1] in A;
        } else {
          assert B[j - 1 - |A|] in B;
        }
      } else if j <= |A| {
        assert Ids(Comments(A))[i - 1] == L[i] && Ids(Comments(A))[j - 1] == L[j];
      } else if i <= |A| {
        assert A[i - 1] in A && B[j - 1 - |A|] in B;
      } else {
        assert Ids(Comments(B))[i - 1 - |A|] == L[i] && Ids(Comments(B))[j - 1 - |A|] == L[j];
      }
    }
  }

  /** Nothing under a reply of `x` is `x` itself. */
  lemma UnderReplyNotSelf(byId: map<Id, Comment>, path: seq<Id>, x: Id, cs: seq<Id>, z: Id)
    requires Chain(byId, path + [x]) && Under(byId, path + [x], cs, z)
    ensures z != x
  {
    var path' := path + [x];
    var q :| Chain(byId, q) && q[|q| - 1] == z && |path'| < |q| && q[..|path'|] == path' && q[|path'|] in cs;
    ChainsMeet(byId, q, path');
  }

  /** Nothing under the rest of a level of distinct ids is the level's first id. */
  lemma UnderRestNotFirst(byId: map<Id, Comment>, path: seq<Id>, ids: seq<Id>, z: Id)
    requires ids != [] && Distinct(ids) && Chain(byId, path + [ids[0]]) && Under(byId, path, ids[1..], z)
    ensures z != ids[0]
  {
    var path' := path + [ids[0]];
    var q :| Chain(byId, q) && q[|q| - 1] == z && |path| < |q| && q[..|path|] == path && q[|path|] in ids[1..];
    assert ids[0] !in ids[1..];
    ChainsMeet(byId, q, path');
    assert path'[|path|] == ids[0];
  }

  /** The subtree of a level's first id and the subtrees of the rest share no id. */
  lemma UnderApart(byId: map<Id, Comment>, path: seq<Id>, ids: seq<Id>, cs: seq<Id>, z1: Id, z2: Id)
    requires ids != [] && Distinct(ids)
    requires Under(byId, path + [ids[0]], cs, z1) && Under(byId, path, ids[1..], z2)
    ensures z1 != z2
  {
    var path' := path + [ids[0]];
    var qa :| Chain(byId, qa) && qa[|qa| - 1] == z1 && |path'| < |qa| && qa[..|path'|] == path' && qa[|path'|] in cs;
    var qb :| Chain(byId, qb) && qb[|qb| - 1] == z2 && |path| < |qb| && qb[..|path|] == path && qb[|path|] in ids[1..];
    assert ids[0] !in ids[1..];
    assert qa[|path|] == qa[..|path'|][|path|] == ids[0];
    ChainsMeet(byId, qa, qb);
  }

  /** The first subtree of a level, its root, and the subtrees of the rest of the level share no id. */
  lemma SubtreesApart(byId: map<Id, Comment>, children: map<Id, seq<Id>>, path: seq<Id>, ids: seq<Id>)
    requires Linked(byId, children) && Continues(byId, path, ids) && Distinct(ids) && ids != []
    requires ids[0] in children && Continues(byId, path + [ids[0]], children[ids[0]]) && Continues(byId, path, ids[1..])
    ensures var A := AllNodes(AssembleSeq(byId, children, path + [ids[0]], children[ids[0]]));
      var B := AllNodes(AssembleSeq(byId, children, path, ids[1..]));
      && (forall a :: a in A ==> a.c.id != ids[0])
      && (forall b :: b in B ==> b.c.id != ids[0])
      && (forall a, b :: a in A && b in B ==> a.c.id != b.c.id)
  {
    var x := ids[0];
    var path' := path + [x];
    ChainStep(byId, children, path, x);
    ContinuesRest(byId, path, ids);
    var A := AllNodes(AssembleSeq(byId, children, path', children[x]));
    var B := AllNodes(AssembleSeq(byId, children, path, ids[1..]));
    AssembleSound(byId, children, path', children[x]);
    AssembleSound(byId, children, path, ids[1..]);
    forall a | a in A ensures a.c.id != x {
      UnderReplyNotSelf(byId, path, x, children[x], a.c.id);
    }
    forall b | b in B ensures b.c.id != x {
      UnderRestNotFirst(byId, path, ids, b.c.id);
    }
    forall a, b | a in A && b in B ensures a.c.id != b.c.id {
      UnderApart(byId, path, ids, children[x], a.c.id, b.c.id);
    }
  }

  /** A level's listing is free of repeats once its first subtree's and its rest's listings are. */
  lemma DistinctStep(byId: map<Id, Comment>, children: map<Id, seq<Id>>, path: seq<Id>, ids: seq<Id>)
    requires Linked(byId, children) && Continues(byId, path, ids) && Distinct(ids) && ids != []
    requires ids[0] in children && Continues(byId, path + [ids[0]], children[ids[0]]) && Continues(byId, path, ids[1..])
    requires Distinct(Ids(Comments(AllNodes(AssembleSeq(byId, children, path + [ids[0]], children[ids[0]])))))
    requires Distinct(Ids(Comments(AllNodes(AssembleSeq(byId, children, path, ids[1..])))))
    ensures Distinct(Ids(Comments(AllNodes(AssembleSeq(byId, children, path, ids)))))
  {
    AllNodesUnfold(byId, children, path, ids);
    SubtreesApart(byId, children, path, ids);
    var f := AssembleSeq(byId, children, path, ids);
    assert f[0].c.id == ids[0];
    DistinctJoin(f[0], AllNodes(AssembleSeq(byId, children, path + [ids[0]], children[ids[0]])),
      AllNodes(AssembleSeq(byId, children, path, ids[1..])));
  }

  /** No record is assembled twice. */
  lemma {:induction false} AssembleDistinct(byId: map<Id, Comment>, children: map<Id, seq<Id>>, path: seq<Id>, ids: seq<Id>)
    requires Linked(byId, children) && Continues(byId, path, ids) && Distinct(ids)
    ensures Distinct(Ids(Comments(AllNodes(AssembleSeq(byId, children, path, ids)))))
    decreases |byId| - |path|, |ids|
  {
    if ids != [] {
      var x := ids[0];
      ChainStep(byId, children, path, x);
      ContinuesRest(byId, path, ids);
      assert Distinct(ids[1..]);
      AssembleDistinct(byId, children, path + [x], children[x]);
      AssembleDistinct(byId, children, path, ids[1..]);
      DistinctStep(byId, children, path, ids);
    }
  }

  // ---------------------------------------------------------------------
  // The forest the GET handler answers with
  // ---------------------------------------------------------------------

  /** An id is listed by `Ids(cs)` exactly when a record of `cs` carries it. */
  lemma IdsMembers(cs: seq<Comment>)
    ensures forall c :: c in cs ==> c.id in Ids(cs)
    ensures forall y :: y in Ids(cs) ==> exists c :: c in cs && c.id == y
  {
    forall c | c in cs ensures c.id in Ids(cs) {
      var i :| 0 <= i < |cs| && cs[i] == c;
      assert Ids(cs)[i] == c.id;
    }
  }

  /** The two passes over a snapshot with unique ids link every record to exactly its replies. */
  lemma SnapshotLinked(s: seq<Comment>)
    requires Distinct(Ids(s))
    ensures Linked(Index(s), Links(s))
    ensures Continues(Index(s), [], RootIds(s)) && Distinct(RootIds(s))
  {
    var byId, children := Index(s), Links(s);
    IndexContents(s);
    IndexFinds(s);
    WhereDistinct(s, None);
    WhereMembers(s, None);
    IdsMembers(Where(s, None));
    forall x | x in children ensures Distinct(children[x]) {
      WhereDistinct(s, Some(x));
    }
    forall x, y | x in children && y in children[x] ensures y in byId && byId[y].parentId == Some(x) {
      WhereMembers(s, Some(x));
      IdsMembers(Where(s, Some(x)));
    }
    forall x, y | x in byId && y in byId && byId[y].parentId == Some(x) ensures y in children[x] {
      WhereMembers(s, Some(x));
      IdsMembers(Where(s, Some(x)));
    }
    var roots := RootIds(s);
    forall i | 0 <= i < |roots| ensures roots[i] in byId && byId[roots[i]].parentId == ParentOf([]) {
      assert roots[i] in Ids(Where(s, None));
    }
  }

  /** The JSON body of a successful GET: the root records, each with its replies nested below it. */
  function Forest(s: seq<Comment>): seq<Node>
    requires Distinct(Ids(s))
  {
    SnapshotLinked(s);
    AssembleSeq(Index(s), Links(s), [], RootIds(s))
  }

  /** The top level of the forest is the root records, in snapshot order. */
  lemma ForestRoots(s: seq<Comment>)
    requires Distinct(Ids(s))
    ensures Comments(Forest(s)) == Where(s, None)
  {
    SnapshotLinked(s);
    IndexFinds(s);
    WhereMembers(s, None);
    AssembleRecords(Index(s), Links(s), [], RootIds(s));
    var f, w := Forest(s), Where(s, None);
    forall i | 0 <= i < |w| ensures Comments(f)[i] == w[i] {
      assert RootIds(s)[i] == w[i].id && w[i] in s;
    }
  }

  /** Every node of the forest carries as replies exactly the records naming it as parent, in snapshot order. */
  lemma ForestReplies(s: seq<Comment>)
    requires Distinct(Ids(s))
    ensures forall n :: n in AllNodes(Forest(s)) ==> Comments(n.replies) == Where(s, Some(n.c.id))
  {
    SnapshotLinked(s);
    IndexFinds(s);
    var byId, children := Index(s), Links(s);
    AssembleFollows(byId, children, [], RootIds(s));
    forall n | n in AllNodes(Forest(s)) ensures Comments(n.replies) == Where(s, Some(n.c.id)) {
      var w := Where(s, Some(n.c.id));
      WhereMembers(s, Some(n.c.id));
      forall j | 0 <= j < |w| ensures Comments(n.replies)[j] == w[j] {
        assert children[n.c.id][j] == w[j].id && w[j] in s;
      }
    }
  }

  /** A record of `m` whose chain of ancestors reaches a root has every ancestor rooted as well. */
  lemma RootedAncestor(m: map<Id, Comment>, d: Id, a: Id, n: nat)
    requires Rooted(m, d) && Up(m, d, n) == Some(a)
    ensures Rooted(m, a)
  {
    var p :| Chain(m, p) && p[|p| - 1] == d;
    if n < |p| {
      ChainUp(m, p, n);
      var q := p[..|p| - n];
      assert Chain(m, q) && q[|q| - 1] == a;
    } else {
      ChainUp(m, p, |p|);
      UpStopped(m, d, |p|, n - |p|);
      assert false;
    }
  }

  /**
   * A node is in the forest exactly when its record is in the snapshot and
   * its chain of parents, read through the snapshot, reaches a root.
   */
  lemma ForestMembers(s: seq<Comment>)
    requires Distinct(Ids(s))
    ensures forall n :: n in AllNodes(Forest(s)) ==> n.c in s && Rooted(Index(s), n.c.id)
    ensures forall c :: c in s && Rooted(Index(s), c.id) ==> c.id in IdsIn(Forest(s))
  {
    SnapshotLinked(s);
    IndexFinds(s);
    IndexContents(s);
    var byId, children, roots := Index(s), Links(s), RootIds(s);
    AssembleSound(byId, children, [], roots);
    forall n | n in AllNodes(Forest(s)) ensures n.c in s && Rooted(byId, n.c.id) {
      var q :| Chain(byId, q) && q[|q| - 1] == n.c.id && 0 < |q| && q[..0] == [] && q[0] in roots;
    }
    forall c | c in s && Rooted(byId, c.id) ensures c.id in IdsIn(Forest(s)) {
      var q :| Chain(byId, q) && q[|q| - 1] == c.id;
      WhereMembers(s, None);
      IdsMembers(Where(s, None));
      assert byId[q[0]] in Where(s, None);
      assert q[..0] == [];
      AssembleComplete(byId, children, [], roots, q);
    }
  }

  /** No record appears twice in the forest. */
  lemma ForestNoDuplicates(s: seq<Comment>)
    requires Distinct(Ids(s))
    ensures Distinct(Ids(Comments(AllNodes(Forest(s)))))
  {
    SnapshotLinked(s);
    AssembleDistinct(Index(s), Links(s), [], RootIds(s));
  }

  /** The response has no more nodes than the listing has records. */
  lemma ForestSize(s: seq<Comment>)
    requires Distinct(Ids(s))
    ensures |AllNodes(Forest(s))| <= |s|
  {
    ForestNoDuplicates(s);
    ForestMembers(s);
    var nodes := AllNodes(Forest(s));
    var L := Ids(Comments(nodes));
    forall x | x in L ensures x in (set y | y in Ids(s)) {
      var k :| 0 <= k < |L| && L[k] == x;
      assert nodes[k] in nodes;
      var j :| 0 <= j < |s| && s[j] == nodes[k].c;
      assert Ids(s)[j] == x;
    }
    DistinctBound(L, set y | y in Ids(s));
    ElementsBound(Ids(s));
  }

  /** Read in ascending creation order, the roots and every reply list come out ascending too. */
  lemma ForestOrdered(s: seq<Comment>)
    requires Distinct(Ids(s)) && Sorted(s)
    ensures Sorted(Comments(Forest(s)))
    ensures forall n :: n in AllNodes(Forest(s)) ==> Sorted(Comments(n.replies))
  {
    ForestRoots(s);
    WhereSorted(s, None);
    ForestReplies(s);
    forall n | n in AllNodes(Forest(s)) ensures Sorted(Comments(n.replies)) {
      WhereSorted(s, Some(n.c.id));
    }
  }

  /**
   * A record whose parent is not in the snapshot is dropped from the forest,
   * and with it everything below it.
   */
  lemma OrphanDropped(s: seq<Comment>, c: Comment, d: Id, n: nat)
    requires Distinct(Ids(s)) && c in s && c.parentId.Some? && c.parentId.value !in Index(s)
    requires Up(Index(s), d, n) == Some(c.id)
    ensures d !in IdsIn(Forest(s))
  {
    var m := Index(s);
    IndexFinds(s);
    ForestMembers(s);
    if d in IdsIn(Forest(s)) {
      var k :| k in AllNodes(Forest(s)) && k.c.id == d;
      RootedAncestor(m, d, c.id, n);
      var p :| Chain(m, p) && p[|p| - 1] == c.id;
      ChainLast(m, p);
      assert false;
    }
  }

  /** A record whose chain of parents loops back on itself is dropped, and everything below it. */
  lemma CycleDropped(s: seq<Comment>, k: Id, cycle: nat, d: Id, n: nat)
    requires Distinct(Ids(s)) && cycle >= 1 && Up(Index(s), k, cycle) == Some(k)
    requires Up(Index(s), d, n) == Some(k)
    ensures d !in IdsIn(Forest(s))
  {
    ForestMembers(s);
    CycleNotRooted(Index(s), k, cycle);
    if d in IdsIn(Forest(s)) {
      var x :| x in AllNodes(Forest(s)) && x.c.id == d;
      RootedAncestor(Index(s), d, k, n);
      assert false;
    }
  }

  // ---------------------------------------------------------------------
  // The handler's two passes
  // ---------------------------------------------------------------------

  /** One more record of the snapshot, as the two passes see it. */
  lemma PrefixStep(s: seq<Comment>, i: nat, parent: Option<Id>)
    requires i < |s|
    ensures s[..i + 1][..i] == s[..i] && s[..i + 1][i] == s[i]
    ensures Index(s[..i + 1]) == Index(s[..i])[s[i].id := s[i]]
    ensures Ids(Where(s[..i + 1], parent)) == Ids(Where(s[..i], parent)) + (if s[i].parentId == parent then [s[i].id] else [])
  {
    var w, extra := Where(s[..i], parent), if s[i].parentId == parent then [s[i]] else [];
    assert s[..i + 1][..i] == s[..i];
    assert Where(s[..i + 1], parent) == w + extra;
    assert Ids(w + extra) == Ids(w) + Ids(extra);
  }

  /** Pass one: every record of the snapshot filed under its id, with an empty reply list. */
  method IndexPass(s: seq<Comment>) returns (byId: map<Id, Comment>, children: map<Id, seq<Id>>)
    ensures byId == Index(s)
    ensures children.Keys == byId.Keys && forall k :: k in children ==> children[k] == []
  {
    byId, children := map[], map[];
    var i := 0;
    while i < |s|
      invariant 0 <= i <= |s|
      invariant byId == Index(s[..i])
      invariant children.Keys == byId.Keys && forall k :: k in children ==> children[k] == []
    {
      PrefixStep(s, i, None);
      byId := byId[s[i].id := s[i]];
      children := children[s[i].id := []];
      i := i + 1;
    }
    assert s[..i] == s;
  }

  /** The reply lists of the records filed under `keys`, as far as the snapshot prefix `s` goes. */
  ghost function Partial(s: seq<Comment>, keys: set<Id>): map<Id, seq<Id>>
  {
    map k | k in keys :: Ids(Where(s, Some(k)))
  }

  /** One more record of pass two appends it to its parent's list, if the parent is filed, and to no other. */
  lemma PartialStep(s: seq<Comment>, i: nat, keys: set<Id>)
    requires i < |s|
    ensures s[i].parentId.Some? && s[i].parentId.value in keys ==>
      Partial(s[..i + 1], keys) == Partial(s[..i], keys)[s[i].parentId.value := Partial(s[..i], keys)[s[i].parentId.value] + [s[i].id]]
    ensures !(s[i].parentId.Some? && s[i].parentId.value in keys) ==> Partial(s[..i + 1], keys) == Partial(s[..i], keys)
  {
    forall k | k in keys
      ensures Ids(Where(s[..i + 1], Some(k))) == Ids(Where(s[..i], Some(k))) + (if s[i].parentId == Some(k) then [s[i].id] else [])
    {
      PrefixStep(s, i, Some(k));
    }
    var after, before := Partial(s[..i + 1], keys), Partial(s[..i], keys);
    if s[i].parentId.Some? && s[i].parentId.value in keys {
      var p := s[i].parentId.value;
      var updated := before[p := before[p] + [s[i].id]];
      assert after.Keys == updated.Keys;
      assert forall k :: k in keys ==> after[k] == updated[k];
    } else {
      assert after.Keys == before.Keys;
      assert forall k :: k in keys ==> after[k] == before[k];
    }
  }

  /**
   * Pass two: each record with a parent is appended to that parent's reply
   * list when the parent is filed, and dropped otherwise; each record without
   * a parent is appended to the roots.
   */
  method LinkPass(s: seq<Comment>, empty: map<Id, seq<Id>>) returns (children: map<Id, seq<Id>>, roots: seq<Id>)
    requires forall k :: k in empty ==> empty[k] == []
    ensures roots == RootIds(s)
    ensures children == Partial(s, empty.Keys)
  {
    children, roots := empty, [];
    var i := 0;
    assert s[..0] == [];
    while i < |s|
      invariant 0 <= i <= |s|
      invariant roots == Ids(Where(s[..i], None))
      invariant children == Partial(s[..i], empty.Keys)
    {
      var c := s[i];
      PrefixStep(s, i, None);
      PartialStep(s, i, empty.Keys);
      match c.parentId {
        case Some(p) =>
          if p in children {
            children := children[p := children[p] + [c.id]];
          }
        case None =>
          roots := roots + [c.id];
      }
      i := i + 1;
    }
    assert s[..i] == s;
  }

  /** The two passes of the GET handler over the snapshot `s`, already in ascending creation order. */
  method BuildTree(s: seq<Comment>) returns (byId: map<Id, Comment>, children: map<Id, seq<Id>>, roots: seq<Id>)
    ensures byId == Index(s) && children == Links(s) && roots == RootIds(s)
  {
    var empty;
    byId, empty := IndexPass(s);
    children, roots := LinkPass(s, empty);
    assert children == Links(s);
  }

  /**
   * The GET handler on a snapshot with unique ids: the roots in snapshot
   * order, each node carrying exactly the records that name it as parent,
   * in snapshot order.
   */
  method GetComments(s: seq<Comment>) returns (forest: seq<Node>)
    requires Distinct(Ids(s))
    ensures forest == Forest(s)
    ensures Comments(forest) == Where(s, None)
    ensures forall n :: n in AllNodes(forest) ==> Comments(n.replies) == Where(s, Some(n.c.id))
  {
    var byId, children, roots := BuildTree(s);
    SnapshotLinked(s);
    forest := AssembleSeq(byId, children, [], roots);
    ForestRoots(s);
    ForestReplies(s);
  }

  // ---------------------------------------------------------------------
  // The seeded board
  // ---------------------------------------------------------------------

  /**
   * The five seeded comments as the store returns them, ascending by
   * creation time (written yyyymmddhhmm): Alex's root, George replying to
   * Alex, Masha to George, Julia's root, Syed to Masha. Comment ids and user
   * ids are 1 (Alex) to 5 (Julia); `saved` is the time the seed ran.
   */
  function Seed(saved: int): seq<Comment>
  {
    [ Comment(1, 1, "Fusce nec accumsan eros.", None, 201707100900, saved),
      Comment(2, 2, "Text2", Some(1), 201707101106, saved),
      Comment(3, 3, "Text3", Some(2), 201707110520, saved),
      Comment(5, 5, "Text4", None, 201707111628, saved),
      Comment(4, 4, "Text5", Some(3), 201707120615, saved) ]
  }

  /** `Where` over five records, written out. */
  lemma WhereFive(s: seq<Comment>, parent: Option<Id>)
    requires |s| == 5
    ensures Where(s, parent) == Where([s[0]], parent) + Where([s[1]], parent) + Where([s[2]], parent)
      + Where([s[3]], parent) + Where([s[4]], parent)
  {
    assert s[..1][..0] == [] && s[..2][..1] == s[..1] && s[..3][..2] == s[..2] && s[..4][..3] == s[..3];
    assert [s[0]][..0] == [];
    assert Where(s[..1], parent) == Where([s[0]], parent);
    assert Where(s[..2], parent) == Where(s[..1], parent) + Where([s[1]], parent);
    assert Where(s[..3], parent) == Where(s[..2], parent) + Where([s[2]], parent);
    assert Where(s[..4], parent) == Where(s[..3], parent) + Where([s[3]], parent);
  }

  /** The records of the seeded board filed by id. */
  lemma SeedIndex(saved: int)
    ensures Distinct(Ids(Seed(saved))) && Sorted(Seed(saved))
    ensures var s := Seed(saved); Index(s) == map[1 := s[0], 2 := s[1], 3 := s[2], 5 := s[3], 4 := s[4]]
  {
    var s := Seed(saved);
    assert Ids(s) == [1, 2, 3, 5, 4];
    assert s[..1][..0] == [] && s[..2][..1] == s[..1] && s[..3][..2] == s[..2] && s[..4][..3] == s[..3];
    assert Index(s[..1]) == map[1 := s[0]];
    assert Index(s[..2]) == map[1 := s[0], 2 := s[1]];
    assert Index(s[..3]) == map[1 := s[0], 2 := s[1], 3 := s[2]];
    assert Index(s[..4]) == map[1 := s[0], 2 := s[1], 3 := s[2], 5 := s[3]];
  }

  /** The roots and the replies of each record of the seeded board. */
  lemma SeedWhere(saved: int)
    ensures var s := Seed(saved);
      && Where(s, None) == [s[0], s[3]]
      && Where(s, Some(1)) == [s[1]] && Where(s, Some(2)) == [s[2]] && Where(s, Some(3)) == [s[4]]
      && Where(s, Some(4)) == [] && Where(s, Some(5)) == []
  {
    var s := Seed(saved);
    WhereFive(s, None);
    WhereFive(s, Some(1));
    WhereFive(s, Some(2));
    WhereFive(s, Some(3));
    WhereFive(s, Some(4));
    WhereFive(s, Some(5));
  }

  /** The roots and reply lists of the seeded board. */
  lemma SeedLinks(saved: int)
    ensures var s := Seed(saved); RootIds(s) == [1, 5] && Links(s) == map[1 := [2], 2 := [3], 3 := [4], 5 := [], 4 := []]
  {
    var s := Seed(saved);
    SeedIndex(saved);
    SeedWhere(saved);
    var L := map[1 := [2], 2 := [3], 3 := [4], 5 := [], 4 := []];
    var links := Links(s);
    assert links.Keys == L.Keys;
    assert Ids([s[1]]) == [2] && Ids([s[2]]) == [3] && Ids([s[4]]) == [4] && Ids([]) == [];
    assert RootIds(s) == Ids([s[0], s[3]]) == [1, 5];
    forall k | k in L ensures links[k] == L[k] {
      assert k == 1 || k == 2 || k == 3 || k == 4 || k == 5;
    }
  }

  /** One level of the assembly: the first id's node with its replies assembled below it, then the rest. */
  lemma AssembleCons(byId: map<Id, Comment>, children: map<Id, seq<Id>>, path: seq<Id>, ids: seq<Id>)
    requires Linked(byId, children) && Continues(byId, path, ids) && ids != []
    ensures ids[0] in children && Continues(byId, path + [ids[0]], children[ids[0]]) && Continues(byId, path, ids[1..])
    ensures AssembleSeq(byId, children, path, ids)
      == [Node(byId[ids[0]], AssembleSeq(byId, children, path + [ids[0]], children[ids[0]]))] + AssembleSeq(byId, children, path, ids[1..])
  {
    ChainStep(byId, children, path, ids[0]);
    ContinuesRest(byId, path, ids);
  }

  /** The assembly of a single id: its node, with its replies assembled below it. */
  lemma AssembleSingle(byId: map<Id, Comment>, children: map<Id, seq<Id>>, path: seq<Id>, x: Id)
    requires Linked(byId, children) && Continues(byId, path, [x])
    ensures x in byId && x in children && Continues(byId, path + [x], children[x])
    ensures AssembleSeq(byId, children, path, [x]) == [Node(byId[x], AssembleSeq(byId, children, path + [x], children[x]))]
  {
    assert [x][0] == x && [x][1..] == [];
    ChainStep(byId, children, path, x);
  }

  /** Two roots, the first with a chain of three replies below it, the second with none. */
  lemma AssembleThread(byId: map<Id, Comment>, children: map<Id, seq<Id>>, a: Id, b: Id, c: Id, d: Id, e: Id)
    requires Linked(byId, children) && Continues(byId, [], [a, e])
    requires a in children && children[a] == [b]
    requires b in children && children[b] == [c]
    requires c in children && children[c] == [d]
    requires d in children && children[d] == []
    requires e in children && children[e] == []
    ensures AssembleSeq(byId, children, [], [a, e])
      == [Node(byId[a], [Node(byId[b], [Node(byId[c], [Node(byId[d], [])])])]), Node(byId[e], [])]
  {
    var roots := [a, e];
    assert roots[1..] == [e];
    AssembleCons(byId, children, [], roots);
    AssembleSingle(byId, children, [], e);
    assert [] + [a] == [a];
    AssembleReplies(byId, children, a, b, c, d);
  }

  /** The replies below the first root of `AssembleThread`. */
  lemma AssembleReplies(byId: map<Id, Comment>, children: map<Id, seq<Id>>, a: Id, b: Id, c: Id, d: Id)
    requires Linked(byId, children) && Continues(byId, [a], [b])
    requires b in children && children[b] == [c]
    requires c in children && children[c] == [d]
    requires d in children && children[d] == []
    ensures AssembleSeq(byId, children, [a], [b]) == [Node(byId[b], [Node(byId[c], [Node(byId[d], [])])])]
  {
    AssembleSingle(byId, children, [a], b);
    assert [a] + [b] == [a, b];
    AssembleBelow(byId, children, a, b, c, d);
  }

  /** The chain below the first root of `AssembleThread`. */
  lemma AssembleBelow(byId: map<Id, Comment>, children: map<Id, seq<Id>>, a: Id, b: Id, c: Id, d: Id)
    requires Linked(byId, children) && Continues(byId, [a, b], [c])
    requires c in children && children[c] == [d]
    requires d in children && children[d] == []
    ensures AssembleSeq(byId, children, [a, b], [c]) == [Node(byId[c], [Node(byId[d], [])])]
  {
    AssembleSingle(byId, children, [a, b], c);
    assert [a, b] + [c] == [a, b, c];
    AssembleSingle(byId, children, [a, b, c], d);
  }

  /** The seeded board renders as Alex's thread nested three replies deep, then Julia's comment on its own. */
  lemma SeedForest(saved: int)
    ensures Distinct(Ids(Seed(saved))) && Sorted(Seed(saved))
    ensures
      var s := Seed(saved);
      Forest(s) == [Node(s[0], [Node(s[1], [Node(s[2], [Node(s[4], [])])])]), Node(s[3], [])]
  {
    var s := Seed(saved);
    SeedIndex(saved);
    SeedLinks(saved);
    SnapshotLinked(s);
    var byId, children := Index(s), Links(s);
    assert children[1] == [2] && children[2] == [3] && children[3] == [4] && children[4] == [] && children[5] == [];
    AssembleThread(byId, children, 1, 2, 3, 4, 5);
    assert byId[1] == s[0] && byId[2] == s[1] && byId[3] == s[2] && byId[4] == s[4] && byId[5] == s[3];
  }
}
