/**
 * The comment store behind server/routes/comments.js and the three handlers
 * that touch it: GET (the tree), POST (create) and DELETE (the cascade).
 * The store is the map of records by id; the Socket.IO broadcasts are an
 * append-only event log.
 */
module CommentRoutes {
  import opened CommentModel
  import opened JsString
  import opened TreeBuilder
  import opened Cascade

  /** A Socket.IO broadcast: `newComment` with the stored record, `commentDeleted` with the requested id. */
  datatype Event = NewComment(comment: Comment) | CommentDeleted(id: Id)

  /** The HTTP status a handler answers with: 200, 201, 400, 403 and 404. */
  datatype Status = Ok | Created | BadRequest | Forbidden | NotFound

  /** `id` is unused: no record is stored under it and no record names it as its parent. */
  ghost predicate Unused(m: map<Id, Comment>, id: Id)
  {
    id !in m && forall k :: k in m ==> m[k].parentId != Some(id)
  }

  /**
   * `s` lists the records of `m`, each once, in ascending creation order:
   * what `Comment.find().sort({ createdAt: 1 })` returns.
   */
  ghost predicate Listing(m: map<Id, Comment>, s: seq<Comment>)
  {
    && Distinct(Ids(s))
    && Sorted(s)
    && (forall c :: c in s ==> c.id in m && m[c.id] == c)
    && (forall k :: k in m ==> m[k] in s)
  }

  class CommentServer {
    /** The stored comments by id. */
    var records: map<Id, Comment>
    /** Every broadcast so far, oldest first. */
    var events: seq<Event>
    /** Every id handed to `findByIdAndDelete` so far, oldest first. */
    ghost var removed: seq<Id>

    /**
     * Records are stored under their own ids. The store may hold a parent
     * cycle: nothing on the POST path rules one out.
     */
    ghost predicate Valid()
      reads this
    {
      Keyed(records)
    }

    /** An empty store with no broadcasts. */
    constructor ()
      ensures records == map[] && events == [] && removed == []
      ensures Valid() && Acyclic(records)
    {
      records, events, removed := map[], [], [];
      assert Ranked(map[], map[]);
    }

    /** `Comment.find({ parentId: id })`: the ids of the stored replies of `id`, each once, in no particular order. */
    method FindReplies(id: Id) returns (replies: seq<Id>)
      ensures Distinct(replies)
      ensures forall k :: k in replies <==> k in records && records[k].parentId == Some(id)
    {
      replies := [];
      var pending := records.Keys;
      while pending != {}
        invariant pending <= records.Keys
        invariant Distinct(replies)
        invariant forall k :: k in replies <==> k in records && k !in pending && records[k].parentId == Some(id)
        decreases pending
      {
        var k :| k in pending;
        if records[k].parentId == Some(id) {
          replies := replies + [k];
        }
        pending := pending - {k};
      }
    }

    /** `Comment.findByIdAndDelete(id)`: removes the record if there is one. */
    method DeleteById(id: Id)
      modifies this
      ensures records == old(records) - {id}
      ensures events == old(events) && removed == old(removed) + [id]
    {
      records := records - {id};
      removed := removed + [id];
    }

    /**
     * `deleteCommentAndReplies(id)`: the cascade from each current reply of
     * `id` in turn, then `id` itself. `rank` witnesses that the parent links
     * are free of cycles; without that the recursion would not stop.
     */
    method DeleteCommentAndReplies(id: Id, ghost rank: map<Id, nat>)
      modifies this
      requires Ranked(records, rank) && id in rank
      ensures records == old(records) - Doomed(old(records), id)
      ensures events == old(events)
      ensures |removed| >= |old(removed)| && removed[..|old(removed)|] == old(removed)
      ensures PostOrder(old(records), id, removed[|old(removed)|..])
      decreases rank[id]
    {
      ghost var start, log := records, [];
      var replies := FindReplies(id);
      var i := 0;
      while i < |replies|
        invariant 0 <= i <= |replies|
        invariant records == start - DoomedAll(start, replies[..i])
        invariant events == old(events) && removed == old(removed) + log
        invariant Distinct(log) && (set x | x in log) == DoomedAll(start, replies[..i]) && RepliesFirst(start, log)
      {
        var r := replies[i];
        assert r in start && start[r].parentId == Some(id);
        RankedRemove(start, rank, DoomedAll(start, replies[..i]));
        ghost var before := removed;
        DeleteCommentAndReplies(r, rank);
        ghost var sub := removed[|before|..];
        assert removed == before + sub;
        CascadeStep(start, rank, id, replies, i, log, sub, records);
        log := log + sub;
        i := i + 1;
      }
      DeleteById(id);
      assert replies[..i] == replies;
      CascadeLast(start, rank, id, replies, log);
      log := log + [id];
      assert removed[|old(removed)|..] == log;
    }

    /**
     * GET /: `listing` is what the store returns for
     * `find().sort({ createdAt: 1 })`; the answer is the forest of roots
     * with their replies nested below them.
     */
    method HandleGet(listing: seq<Comment>) returns (forest: seq<Node>)
      requires Listing(records, listing)
      ensures forest == Forest(listing)
      ensures Comments(forest) == Where(listing, None) && Sorted(Comments(forest))
      ensures forall n :: n in AllNodes(forest) ==> Comments(n.replies) == Where(listing, Some(n.c.id))
    {
      forest := GetComments(listing);
      ForestOrdered(listing);
    }

    /**
     * POST / for the authenticated user `requester`. The author is always
     * the requester; a missing (falsy) `parentId` in the body becomes null,
     * and the parent is not looked up. The store trims the content and
     * refuses it when nothing is left (400). `newId` is the fresh id the
     * store assigns and `now` the creation time, used for both timestamps.
     * The store stays free of parent cycles only when no record already
     * names `newId` as its parent and the body does not name it either.
     */
    method HandleCreate(requester: UserId, content: Option<string>, parentId: Option<Id>, newId: Id, now: int)
      returns (status: Status, created: Option<Comment>)
      modifies this
      requires Valid() && newId !in records
      ensures Valid()
      ensures Acyclic(old(records)) && Unused(old(records), newId) && parentId != Some(newId) ==> Acyclic(records)
      ensures removed == old(removed)
      ensures content.None? || Trim(content.value) == [] ==>
        status == BadRequest && created == None && records == old(records) && events == old(events)
      ensures content.Some? && Trim(content.value) != [] ==>
        && status == Created
        && created == Some(Comment(newId, requester, Trim(content.value), parentId, now, now))
        && records == old(records)[newId := created.value]
        && events == old(events) + [NewComment(created.value)]
    {
      if content.None? {
        return BadRequest, None;
      }
      var text := Trim(content.value);
      if text == [] {
        return BadRequest, None;
      }
      var c := Comment(newId, requester, text, parentId, now, now);
      ghost var before := records;
      records := records[newId := c];
      events := events + [NewComment(c)];
      status, created := Created, Some(c);
      if Acyclic(before) && Unused(before, newId) && parentId != Some(newId) {
        ghost var rank :| Ranked(before, rank);
        RankedAddLeaf(before, rank, c);
      }
    }

    /**
     * DELETE /:id for the authenticated user `requester`: 404 when no
     * record has the id, 403 when the requester did not write it, and
     * otherwise the cascade followed by one `commentDeleted` broadcast.
     * Only the requested record's author is checked: replies by others go
     * with it. The cascade only stops when the parent links are free of
     * cycles, which the caller has to guarantee.
     */
    method HandleDelete(id: Id, requester: UserId) returns (status: Status)
      modifies this
      requires Valid() && Acyclic(records)
      ensures Valid() && Acyclic(records)
      ensures status == NotFound <==> id !in old(records)
      ensures status == Forbidden <==> id in old(records) && old(records)[id].userId != requester
      ensures status == Ok <==> id in old(records) && old(records)[id].userId == requester
      ensures status != Ok ==> records == old(records) && events == old(events) && removed == old(removed)
      ensures status == Ok ==>
        && records == old(records) - Doomed(old(records), id)
        && events == old(events) + [CommentDeleted(id)]
        && |removed| >= |old(removed)| && removed[..|old(removed)|] == old(removed)
        && PostOrder(old(records), id, removed[|old(removed)|..])
    {
      if id !in records {
        return NotFound;
      }
      if records[id].userId != requester {
        return Forbidden;
      }
      ghost var rank :| Ranked(records, rank);
      DeleteCommentAndReplies(id, rank);
      RankedRemove(old(records), rank, Doomed(old(records), id));
      events := events + [CommentDeleted(id)];
      status := Ok;
    }
  }

  /**
   * POST does not look the parent up, so a body may name an id the store
   * assigns later. Once that id is assigned to a record naming the first one
   * as its parent, the two records form a parent cycle.
   */
  lemma ForwardParentClosesCycle(a: Comment, b: Comment)
    requires a.id != b.id && a.parentId == Some(b.id) && b.parentId == Some(a.id)
    ensures Acyclic(map[a.id := a]) && !Acyclic(map[a.id := a][b.id := b])
  {
    assert Ranked(map[a.id := a], map[a.id := 0, b.id := 1]);
    var m := map[a.id := a][b.id := b];
    forall rank: map<Id, nat> ensures !Ranked(m, rank) {
      assert a.id in m && m[a.id] == a && b.id in m && m[b.id] == b;
    }
  }

  /** The GET handler's id map over a listing of the store is the store itself. */
  lemma ListingIndex(m: map<Id, Comment>, s: seq<Comment>)
    requires Keyed(m) && Listing(m, s)
    ensures Index(s) == m
  {
    IndexContents(s);
    IndexFinds(s);
    forall k | k in m ensures k in Index(s) && Index(s)[k] == m[k] {
      assert m[k] in s;
    }
  }

  /** Storing a record under a new id keeps every chain of the old store a chain. */
  lemma ChainWiden(m: map<Id, Comment>, c: Comment, p: seq<Id>)
    requires c.id !in m && Chain(m, p)
    ensures Chain(m[c.id := c], p)
  {
    forall i | 0 <= i < |p| ensures p[i] != c.id {
      if i > 0 {
        assert p[i] in m;
      }
    }
  }

  /**
   * A comment created at the top level, or as a reply to a comment the
   * board shows, is shown by the next GET.
   */
  lemma CreatedIsShown(m: map<Id, Comment>, c: Comment, s: seq<Comment>)
    requires Keyed(m) && c.id !in m
    requires c.parentId.Some? ==> Rooted(m, c.parentId.value)
    requires Listing(m[c.id := c], s)
    ensures c.id in IdsIn(Forest(s))
  {
    var m' := m[c.id := c];
    ListingIndex(m', s);
    var p: seq<Id> := [];
    if c.parentId.Some? {
      p :| Chain(m, p) && p[|p| - 1] == c.parentId.value;
      ChainWiden(m, c, p);
    }
    ChainExtend(m', p, c.id);
    assert (p + [c.id])[|p|] == c.id;
    ForestMembers(s);
  }
}
