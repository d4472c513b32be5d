# Threaded comment board: a Dafny model

A model of a threaded comment board with proofs. It covers the server's
comment routes and the client's comment item and comment form. Comments
form a tree through their `parentId`, and the model proves four things:

- **GET.** A flat listing, ascending by creation time, becomes a forest of
  roots with nested replies. This is done in two passes: an id map, then a
  parent-link walk.
- **DELETE.** A comment is removed together with everything below it. The
  cascade removes replies before their parents, and answers 404 and 403 in
  that order.
- **POST.** A new comment stores the requester as author and a null parent
  when none is given. The store trims the content and refuses content that
  is blank.
- **Client.** Comments zig-zag left and right. Replies are paged five at a
  time. The date line is day.month.year, then "в", then hours:minutes. The
  form submits only trimmed, non-blank content and then clears itself.

The project has seven modules:

- **`CommentModel`**: the comment record and the parent-link vocabulary.
  This covers filtering by parent, walking `parentId` upwards, and chains
  from a root.
- **`TreeBuilder`**: the GET builder. Its two loops are imperative methods.
  They are proved equal to the specification functions `Index`, `Links` and
  `RootIds`. `AssembleSeq` unfolds the id links into nested nodes, and the
  lemmas about `Forest` state what the response contains.
- **`Cascade`**: the specification of the recursive delete. Acyclicity is
  witnessed by a rank. `Doomed(m, a)` is `a` plus everything below it, and
  the post-order log (each id once, each reply before its parent) is stated
  as `PostOrder`.
- **`CommentRoutes`**: the class `CommentServer`. It holds the store (a map
  of records by id) and the broadcast log, and its methods are the three
  handlers plus the recursive delete.
- **`JsString`**: `String.prototype.trim`, which the schema's `trim: true`
  and the form both use.
- **`CommentForm`**: the form's state and its `handleSubmit`.
- **`CommentItem`**: alignment, the reply pagination, the per-comment state
  as a class, and `formatDate`.

## Model

| member | source | states |
|---|---|---|
| TreeBuilder.IndexPass | server/routes/comments.js:17-23 | After the first loop the id map is `Index(s)`: every id of the listing is filed with a record of the listing carrying it. Every entry starts with an empty reply list. |
| TreeBuilder.IndexContents | server/routes/comments.js:18-23 | The id map has an entry for every record's id and for no other id. Each entry is a record of the listing carrying that id. |
| TreeBuilder.IndexFinds | server/routes/comments.js:18-23 | When the ids are unique, every record of the listing is filed under its own id. |
| TreeBuilder.LinkPass | server/routes/comments.js:25-35 | After the second loop, `roots` holds the ids of the null-parent records in listing order. Each present parent's reply list holds the ids of the records naming it, in listing order. A record naming an absent parent is filed nowhere. |
| TreeBuilder.BuildTree | server/routes/comments.js:14-35 | Both loops together yield the id map `Index(s)`, the reply lists `Links(s)` and the roots `RootIds(s)`. |
| TreeBuilder.GetComments | server/routes/comments.js:13-37 | The response is `Forest(s)`. Its top level is exactly the root records in listing order, and every node's replies are exactly the records naming it as parent, in listing order. |
| TreeBuilder.AssembleSeq | server/routes/comments.js:19-22 | Serialising the shared node objects gives one node per id of a level. |
| TreeBuilder.AssembleRecords | server/routes/comments.js:19-22 | The node at position i of a level carries the record filed under the level's i-th id. |
| TreeBuilder.AssembleFollows | server/routes/comments.js:28-30 | Every assembled node's replies are the nodes of the ids pushed onto its reply list, in push order. |
| TreeBuilder.AssembleSound | server/routes/comments.js:26-35 | Every assembled node is a stored record. Its parent chain runs through the level it was assembled from. |
| TreeBuilder.AssembleComplete | server/routes/comments.js:26-35 | Every record whose parent chain runs through a level is assembled somewhere below that level. |
| TreeBuilder.AssembleDistinct | server/routes/comments.js:26-35 | No record is assembled twice. |
| TreeBuilder.SnapshotLinked | server/routes/comments.js:17-35 | For a listing with unique ids, the two loops link every record to exactly its replies, each reply once. The roots are distinct top-level records. |
| TreeBuilder.ForestRoots | server/routes/comments.js:32-34 | The top level of the response is exactly the null-parent records, in listing order. |
| TreeBuilder.ForestReplies | server/routes/comments.js:27-31 | Each node of the response carries as replies exactly the records whose `parentId` is its id, in listing order. |
| TreeBuilder.ForestMembers | server/routes/comments.js:26-35 | A record appears in the response exactly when its chain of parents, read through the listing, reaches a root. This holds in both directions. |
| TreeBuilder.ForestNoDuplicates | server/routes/comments.js:26-35 | No record appears twice in the response. |
| TreeBuilder.ForestSize | server/routes/comments.js:17-35 | The response holds at most as many nodes as the listing has records: every node is a listed record, and none appears twice. |
| TreeBuilder.ForestOrdered | server/routes/comments.js:9-11 | The listing is sorted ascending by creation time, so the roots and every reply list of the response are ascending too. |
| TreeBuilder.OrphanDropped | server/routes/comments.js:27-31 | A record whose parent is not stored is absent from the response, and so is everything below it. |
| TreeBuilder.CycleDropped | server/routes/comments.js:27-31 | Records on or below a loop of parent links are absent from the response. |
| TreeBuilder.SeedIndex | server/seed.js:58-91 | The five seeded comments have unique ids, are in ascending date order, and fill the id map as written out. |
| TreeBuilder.SeedLinks | server/seed.js:58-91 | The seeded board's roots are Alex's and Julia's comments. The reply lists form the chain George, then Masha, then Syed. |
| TreeBuilder.SeedForest | server/seed.js:58-91 | The seeded board renders as Alex's comment with replies nested three deep (George, Masha, Syed), then Julia's comment with no replies. |
| CommentModel.ChainUnique | server/models/Comment.js:14-18 | Each record has one `parentId`, so two root-first chains that end at the same record are the same chain. |
| CommentModel.CycleNotRooted | server/models/Comment.js:14-18 | A record whose parent links loop back to itself is never reached from a root. |
| Cascade.SiblingsApart | server/routes/comments.js:96-101 | When the store has no parent cycles, the subtrees of two different replies of a record share no record. |
| Cascade.DoomedSplit | server/routes/comments.js:94-104 | The records the cascade from `id` removes are exactly `id` itself (when stored) plus what the cascade from each stored reply removes. |
| Cascade.NoDanglingMidway | server/routes/comments.js:94-105 | The cascade removes each reply before its parent. So after any prefix of its removals, no remaining record names a removed record as its parent. |
| Cascade.CascadeStep | server/routes/comments.js:99-101 | One turn of the loop over the replies: the next reply's cascade removes exactly its subtree from what is left. Its log shares no id with the log so far, so the joined log still names each id once, and replies still come first. |
| Cascade.CascadeLast | server/routes/comments.js:104 | Removing `id` after the loop completes the cascade. `id` is not in the replies' log, and the whole log is a post-order of `id`'s subtree. |
| Cascade.RankedAddLeaf | server/routes/comments.js:45-52 | Storing a comment under an id that no record uses or names as parent keeps the store free of parent cycles, whatever other id it names as parent. |
| Cascade.RankedRemove | server/routes/comments.js:104 | Removing records keeps the store free of parent cycles. |
| CommentRoutes.CommentServer.FindReplies | server/routes/comments.js:96 | It returns the ids of exactly the stored records whose `parentId` is `id`, each once. |
| CommentRoutes.CommentServer.DeleteById | server/routes/comments.js:104 | It removes the record stored under `id`, if any, and nothing else. |
| CommentRoutes.CommentServer.DeleteCommentAndReplies | server/routes/comments.js:94-105 | The store loses exactly `id` and everything below it. The ids are removed in post-order: each once, and each reply before its parent. No broadcast is made. |
| CommentRoutes.CommentServer.HandleGet | server/routes/comments.js:7-37 | It answers with the forest of the stored records. The top level is the root records in ascending date order, and each node's replies are the records naming it. |
| CommentRoutes.CommentServer.HandleCreate | server/routes/comments.js:44-63 | Missing or blank content gets 400 and changes nothing. Otherwise it answers 201 and stores the comment with the requester as author, the trimmed content, the given parent or null, and the creation time in both timestamps. One `newComment` broadcast carries the stored comment. The store stays free of parent cycles when no record names the new id as parent and the body does not name it either. |
| CommentRoutes.ForwardParentClosesCycle | server/routes/comments.js:48 | The parent is stored unchecked. So a record naming a not-yet-assigned id, followed by a record created under that id naming the first, turns a store without parent cycles into one with a cycle. |
| CommentRoutes.CommentServer.HandleDelete | server/routes/comments.js:67-91 | 404 comes exactly when no record has the id. 403 comes exactly when the requester did not write it. 200 comes otherwise. On 404 and 403 nothing changes. On 200 the record and everything below it are removed in post-order, followed by one `commentDeleted` broadcast of the id. |
| CommentRoutes.ListingIndex | server/routes/comments.js:9-23 | Over a listing of the whole store, the GET handler's id map is the store itself. |
| CommentRoutes.CreatedIsShown | server/routes/comments.js:44-49 | A comment created at the top level, or as a reply to a comment the board shows, is shown by the next GET. |
| JsString.TrimStart | server/models/Comment.js:12 | The result is a suffix of the input. What was cut is all white space, and the result is empty or starts with a non-space. |
| JsString.TrimEnd | server/models/Comment.js:12 | The result is a prefix of the input. What was cut is all white space, and the result is empty or ends with a non-space. |
| JsString.Trim | server/models/Comment.js:12 | `trim()`, used by the schema (this line) and by the form (client/src/components/CommentForm.js:11 and 17). It is never longer than the input and never ends with white space. `TrimSpec`, `TrimEmpty` and `TrimIdempotent` state the rest. |
| JsString.TrimSpec | client/src/components/CommentForm.js:17 | `trim()` yields a contiguous slice of the input. Only white space lies outside it, and it neither starts nor ends with white space. |
| JsString.TrimEmpty | client/src/components/CommentForm.js:11 | `trim()` yields the empty string exactly when the input is all white space. |
| JsString.TrimIdempotent | server/models/Comment.js:12 | Trimming twice is trimming once. |
| CommentForm.SubmitPayload | client/src/components/CommentForm.js:11-18 | Nothing is submitted exactly when the content is all white space. Otherwise the payload has no parent and its content is a non-empty slice of the content. Only white space lies outside that slice, and the slice neither starts nor ends with white space: what `trim()` yields. |
| CommentForm.SubmittedKeptAsSent | client/src/components/CommentForm.js:16-18 | What the form submits is left unchanged by the store's trim. |
| CommentForm.FormState.constructor | client/src/components/CommentForm.js:5 | A new form's content is empty. |
| CommentForm.FormState.Edit | client/src/components/CommentForm.js:33 | Typing replaces the content. |
| CommentForm.FormState.HandleSubmit | client/src/components/CommentForm.js:8-22 | Blank content submits nothing and stays in place. Otherwise the trimmed content is submitted and the content is reset to empty. |
| CommentItem.Alignments | client/src/components/CommentItem.js:54-61 | A root sits on the left. Below the top level a comment sits on the side its parent handed down. The side handed to the replies is always the opposite of the comment's own side. |
| CommentItem.ZigZag | client/src/components/CommentItem.js:54-61 | Roots are handed "left" and each comment hands its child alignment down. At any depth the comment is on the left exactly when the depth is even, and the next level sits on the other side. |
| CommentItem.AtMaxDepth | client/src/components/CommentItem.js:78 | The highlight test `depth >= MAX_DEPTH`, with MAX_DEPTH 3. A root is never highlighted. `MaxDepthOnlyHighlights` states that highlighting does not cut the nesting off. |
| CommentItem.VisibleReplies | client/src/components/CommentItem.js:73 | The replies allowed on screen while the replies are expanded are a prefix of the replies, no longer than the allowed count. It is all of them when there are fewer. |
| CommentItem.HasMore | client/src/components/CommentItem.js:74 | The "load more" test, rendered (line 188) only while the replies are expanded. It holds only for a comment with replies. `HasMoreIffHidden` and `LoadMoreIffChildrenShort` state what it means. |
| CommentItem.Remaining | client/src/components/CommentItem.js:75 | The replies not yet allowed on screen. It is positive exactly when the "load more" test holds, and the button is rendered only while the replies are expanded. |
| CommentItem.LoadMoreLabel | client/src/components/CommentItem.js:194 | The number on the "load more" button is at most a page of five. It is at least one whenever the button is rendered. Below five it is the number of remaining replies, and it is a full page whenever "show all" is offered. `LoadMoreReveals` proves a click reveals exactly that many. |
| CommentItem.ShowAllOffered | client/src/components/CommentItem.js:188-197 | The "show all" test, rendered only while the replies are expanded and "load more" is rendered. It holds only when more than a page of replies is hidden. `ShowAllIffPageShort` states it both ways. |
| CommentItem.HasMoreIffHidden | client/src/components/CommentItem.js:73-74 | While the replies are expanded, "load more" is rendered exactly when some reply is not on screen. |
| CommentItem.LoadMoreIffChildrenShort | client/src/components/CommentItem.js:173-188 | Below an expanded comment, "load more" follows the rendered replies exactly when fewer of them render than the comment has. Below a collapsed one it is not rendered. |
| CommentItem.LoadMoreReveals | client/src/components/CommentItem.js:80-82 | When replies are hidden, "load more" keeps the replies already shown and appends after them. It reveals exactly the number its label (line 194) announces, between 1 and 5. |
| CommentItem.ShowAllIffPageShort | client/src/components/CommentItem.js:197 | While the replies are expanded, "show all" is rendered exactly when one more "load more" would still leave replies hidden. |
| CommentItem.ShowAllRevealsAll | client/src/components/CommentItem.js:84-86 | After "show all" every reply is on screen and "load more" is gone. |
| CommentItem.ChildItems | client/src/components/CommentItem.js:173-185 | Collapsed replies render nothing. Expanded, the visible replies render in order, one level deeper, each drawn on the side opposite its parent. |
| CommentItem.MaxDepthOnlyHighlights | client/src/components/CommentItem.js:77-78 | At or below the highlight depth, replies still render, and they are highlighted too. Nesting is not capped. |
| CommentItem.ItemState.constructor | client/src/components/CommentItem.js:11-13 | The reply form starts closed, the replies collapsed, and one page of five allowed. |
| CommentItem.ItemState.HandleReplyClick | client/src/components/CommentItem.js:26-28 | The reply form toggles. The rest of the state is unchanged. |
| CommentItem.ItemState.ToggleReplies | client/src/components/CommentItem.js:141 | The replies expand or collapse. The rest of the state is unchanged. |
| CommentItem.ItemState.HandleLoadMore | client/src/components/CommentItem.js:80-82 | The allowed count grows by five. The rest of the state is unchanged. |
| CommentItem.ItemState.HandleShowAll | client/src/components/CommentItem.js:84-86 | The allowed count becomes the reply count. The rest of the state is unchanged. |
| CommentItem.ItemState.HandleReplySubmit | client/src/components/CommentItem.js:30-33 | The form's content goes on with this comment's id as parent, and the reply form closes. |
| CommentItem.Decimal | client/src/components/CommentItem.js:17-21 | `String(n)` is a non-empty run of digits. It is one digit long exactly when n is below 10. |
| CommentItem.DecimalValue | client/src/components/CommentItem.js:17-21 | The digits of `String(n)` read back as n. |
| CommentItem.PadStart2 | client/src/components/CommentItem.js:17-21 | `padStart(2, '0')` keeps the string at the end and puts zeros in front until it is two characters long. A longer string is kept as it is. |
| CommentItem.TwoDigits | client/src/components/CommentItem.js:17-21 | A calendar field prints as at least two digits, with a leading zero below 10. `TwoDigitsValue` pins it to exactly two digits for fields below 100. |
| CommentItem.TwoDigitsValue | client/src/components/CommentItem.js:17-21 | A field below 100, padded with `padStart(2, '0')`, is exactly two digits that read back as the field. |
| CommentItem.FormatDate | client/src/components/CommentItem.js:15-24 | A plain definition of the date line: day, month and year separated by dots, then "в", then hours:minutes. `FormatParse` and `FormatDateInjective` state what it means. |
| CommentItem.FormatParse | client/src/components/CommentItem.js:15-24 | Every valid date prints to a line that parses back to the same year, month, day, hours and minutes. |
| CommentItem.FormatDateInjective | client/src/components/CommentItem.js:15-24 | No two valid dates print alike. |

## Left out

- Storage: the MongoDB driver, `populate` of user names and avatars, and `ObjectId` casting. The store is a map from ids to records, and its operations never fail.
- Store failures: GET and DELETE answer them with 500, and POST with 400, since the `catch` at comments.js 61-62 covers both `save` and the `findById` after it. A failure of that `findById` leaves the saved record stored with no broadcast. A failure in the middle of a cascade leaves part of the subtree deleted. The model covers none of these runs.
- The authentication middleware (server/middleware/auth is not part of this model) and its 401 answers. The authenticated user's id is a parameter of the handlers.
- Socket.IO transport: broadcasts are appended to an event log. The client's refetch on those events (client/src/App.js) is not modelled.
- Client network calls, `window.confirm`, `alert`, and the comment item's delete button (CommentItem.js 35-46). The `isOwner` check that hides that button is not modelled either; the server enforces ownership.
- Rendering: CSS classes, widths, avatars, and the singular/plural wording of the labels.
- Time zones: `formatDate` is modelled from the local calendar fields that the `Date` getters return.
- Concurrency: each handler runs as one atomic step, although the JavaScript awaits between store calls.
- The `updatedAt` pre-save hook: both timestamps of a new comment are the creation time `now`.
- Seed data: the users, the clean-up and the console output are left out, and Alex's long text is shortened. The timestamps are `yyyymmddhhmm` integers.
- Parent ids: `None` stands for every falsy `parentId` in a request body.
- CommentRoutes.CommentServer.DeleteCommentAndReplies: requires a rank that witnesses acyclic parent links. When the id lies on a parent cycle, the source recurses forever; the model does not cover that run.
- CommentRoutes.CommentServer.HandleDelete: requires a store free of parent cycles, for the cascade's sake. Nothing in the source guarantees this (see the HandleCreate line below). A DELETE of a record on a cycle never answers.
- CommentRoutes.CommentServer.HandleCreate: promises a store free of parent cycles only when no stored record names the new id as parent and the body does not name it either. The source does not enforce this: it stores the body's `parentId` without looking it up (comments.js 48), and ObjectIds can be predicted from returned ids. So a client can name an id before it is assigned and close a cycle (`ForwardParentClosesCycle`). GET then drops the records on the cycle, and a DELETE of one of them never returns.
- CommentRoutes.CommentServer.HandleGet: requires the store's listing to hold each stored record once, sorted ascending by creation time.
- TreeBuilder.GetComments: requires the listing's ids to be unique, as the primary key guarantees.
- CommentRoutes.CommentServer.FindReplies: promises the set of replies but not their order, which is up to the store.
- CommentItem.FormatParse: stated for the valid calendar range with a non-negative year. It holds in one direction only: a line whose year has leading zeros parses but does not print back the same.
- CommentItem.ItemState.HandleReplySubmit: the awaited `onReply` is left out. The caller in client/src/App.js catches its own errors, so the form always closes.
