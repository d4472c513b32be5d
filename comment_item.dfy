/**
 * client/src/components/CommentItem.js: how one comment of the thread is laid
 * out (zig-zag alignment, the depth highlight), which of its replies are on
 * screen (the "load more" / "show all" pagination), the reply form it opens,
 * and the date line it prints.
 */
module CommentItem {
  import opened CommentModel
  import opened CommentForm

  /** Depth from which a comment is drawn with the highlighted border. */
  const MAX_DEPTH: nat := 3
  /** Replies revealed at first and by each "load more". */
  const REPLIES_PER_PAGE: nat := 5

  // ---------------------------------------------------------------------
  // Zig-zag alignment
  // ---------------------------------------------------------------------

  datatype Alignment = Left | Right

  function Opposite(a: Alignment): Alignment
  {
    if a == Left then Right else Left
  }

  /**
   * The side a comment at `depth` is drawn on and the side it hands to its
   * replies: roots sit on the left; below them a comment takes the side its
   * parent handed down.
   */
  function Alignments(depth: nat, parentAlignment: Alignment): (r: (Alignment, Alignment))
    ensures r.1 == Opposite(r.0)
    ensures depth == 0 ==> r.0 == Left
    ensures depth > 0 ==> r.0 == parentAlignment && r.1 == Opposite(parentAlignment)
  {
    if depth == 0 then (Left, Right)
    else (parentAlignment, if parentAlignment == Left then Right else Left)
  }

  /**
   * The `parentAlignment` received at `depth`: the comment list hands "left"
   * to every root, and every comment hands its child alignment to its replies.
   */
  function Received(depth: nat): Alignment
  {
    if depth == 0 then Left else Alignments(depth - 1, Received(depth - 1)).1
  }

  /** The side the comment at `depth` of a thread is drawn on. */
  function Side(depth: nat): Alignment
  {
    Alignments(depth, Received(depth)).0
  }

  /** Sides alternate level by level, starting on the left at the roots, at every depth. */
  lemma {:induction false} ZigZag(depth: nat)
    ensures Side(depth) == (if depth % 2 == 0 then Left else Right)
    ensures Side(depth + 1) == Opposite(Side(depth))
  {
    if depth > 0 {
      ZigZag(depth - 1);
    }
  }

  /** Whether the comment is drawn with the highlighted border; a root never is. */
  predicate AtMaxDepth(depth: nat)
    ensures AtMaxDepth(depth) ==> depth > 0
  {
    depth >= MAX_DEPTH
  }

  // ---------------------------------------------------------------------
  // Pagination of replies
  // ---------------------------------------------------------------------

  function Min(a: int, b: int): int
  {
    if a <= b then a else b
  }

  /**
   * The replies allowed on screen while they are expanded: the first `count`
   * of them, or all when there are fewer. Collapsed, none render (`ChildItems`).
   */
  function VisibleReplies<T>(replies: seq<T>, count: nat): (r: seq<T>)
    ensures r <= replies
    ensures |r| <= count
    ensures |r| == count || r == replies
  {
    if |replies| > 0 then replies[..Min(count, |replies|)] else []
  }

  /**
   * Whether the "load more" button is rendered while the replies are
   * expanded; it implies the comment has replies.
   */
  predicate HasMore(replyCount: nat, count: nat)
    ensures HasMore(replyCount, count) ==> replyCount > 0
  {
    replyCount > count
  }

  /**
   * Replies not yet allowed on screen while the replies are expanded;
   * negative once `count` exceeds the replies.
   */
  function Remaining(replyCount: nat, count: nat): (r: int)
    ensures r > 0 <==> HasMore(replyCount, count)
  {
    replyCount - count
  }

  /**
   * How many replies the "load more" button announces: a full page, or what
   * is left when that is less.
   */
  function LoadMoreLabel(replyCount: nat, count: nat): (r: int)
    ensures r <= REPLIES_PER_PAGE
    ensures HasMore(replyCount, count) ==> r >= 1
    ensures r < REPLIES_PER_PAGE ==> r == Remaining(replyCount, count)
    ensures ShowAllOffered(replyCount, count) ==> r == REPLIES_PER_PAGE
  {
    Min(REPLIES_PER_PAGE, Remaining(replyCount, count))
  }

  /**
   * Whether the "show all" button is rendered next to "load more" while the
   * replies are expanded: only when more than a page is hidden.
   */
  predicate ShowAllOffered(replyCount: nat, count: nat)
    ensures ShowAllOffered(replyCount, count) ==> replyCount > count + REPLIES_PER_PAGE
  {
    HasMore(replyCount, count) && Remaining(replyCount, count) > REPLIES_PER_PAGE
  }

  /** While the replies are expanded, "load more" is offered exactly when some of them are still hidden. */
  lemma HasMoreIffHidden<T>(replies: seq<T>, count: nat)
    ensures HasMore(|replies|, count) <==> |VisibleReplies(replies, count)| < |replies|
  {
    var v := VisibleReplies(replies, count);
    if HasMore(|replies|, count) {
      assert |v| <= count < |replies|;
    } else {
      assert v == replies;
    }
  }

  /**
   * Below an expanded comment, "load more" follows the rendered replies
   * exactly when fewer of them render than the comment has; below a
   * collapsed one neither renders.
   */
  lemma LoadMoreIffChildrenShort<T>(replies: seq<T>, showReplies: bool, count: nat, depth: nat,
                                    parentAlignment: Alignment)
    ensures showReplies && HasMore(|replies|, count)
        <==> showReplies && |ChildItems(replies, showReplies, count, depth, parentAlignment)| < |replies|
  {
    HasMoreIffHidden(replies, count);
  }

  /**
   * Clicking "load more" keeps what is on screen, appends after it, and reveals
   * exactly the number its label announces, between one and a page.
   */
  lemma {:induction false} LoadMoreReveals<T>(replies: seq<T>, count: nat)
    requires HasMore(|replies|, count)
    ensures VisibleReplies(replies, count) <= VisibleReplies(replies, count + REPLIES_PER_PAGE)
    ensures |VisibleReplies(replies, count + REPLIES_PER_PAGE)| - |VisibleReplies(replies, count)|
            == LoadMoreLabel(|replies|, count)
    ensures 1 <= LoadMoreLabel(|replies|, count) <= REPLIES_PER_PAGE
  {
    assert VisibleReplies(replies, count) == replies[..count];
    assert |VisibleReplies(replies, count + REPLIES_PER_PAGE)| == Min(count + REPLIES_PER_PAGE, |replies|);
  }

  /** "Show all" is offered exactly when one more "load more" would still leave replies hidden. */
  lemma ShowAllIffPageShort(replyCount: nat, count: nat)
    ensures ShowAllOffered(replyCount, count) <==> HasMore(replyCount, count + REPLIES_PER_PAGE)
  {
  }

  /** After "show all" every reply is on screen and "load more" disappears. */
  lemma ShowAllRevealsAll<T>(replies: seq<T>)
    ensures VisibleReplies(replies, |replies|) == replies
    ensures !HasMore(|replies|, |replies|)
  {
  }

  /** One rendered reply: the comment and the depth and side its parent passes down. */
  datatype Child<T> = Child(reply: T, depth: nat, parentAlignment: Alignment)

  /**
   * The replies rendered below a comment at `depth`: nothing while they are
   * collapsed, else the visible ones, one level deeper, each handed the
   * comment's child alignment.
   */
  function ChildItems<T>(replies: seq<T>, showReplies: bool, count: nat, depth: nat,
                         parentAlignment: Alignment): (r: seq<Child<T>>)
    ensures !showReplies ==> r == []
    ensures showReplies ==> |r| == |VisibleReplies(replies, count)|
    ensures forall i :: 0 <= i < |r| ==>
      && r[i].reply == replies[i]
      && r[i].depth == depth + 1
      && Alignments(r[i].depth, r[i].parentAlignment).0 == Opposite(Alignments(depth, parentAlignment).0)
  {
    var visible := VisibleReplies(replies, count);
    var side := Alignments(depth, parentAlignment).1;
    if |replies| > 0 && showReplies then
      seq(|visible|, i requires 0 <= i < |visible| => Child(visible[i], depth + 1, side))
    else []
  }

  /** Nesting is not cut off at the highlight depth: replies below it still render, highlighted too. */
  lemma MaxDepthOnlyHighlights<T>(replies: seq<T>, count: nat, depth: nat, parentAlignment: Alignment)
    requires AtMaxDepth(depth) && |replies| > 0 && count > 0
    ensures ChildItems(replies, true, count, depth, parentAlignment) != []
    ensures forall c :: c in ChildItems(replies, true, count, depth, parentAlignment) ==> AtMaxDepth(c.depth)
  {
    assert |VisibleReplies(replies, count)| > 0;
  }

  // ---------------------------------------------------------------------
  // Per-comment state
  // ---------------------------------------------------------------------

  /** The three pieces of React state each rendered comment keeps. */
  class ItemState {
    var showReplyForm: bool
    var showReplies: bool
    var visibleRepliesCount: nat

    /** Form closed, replies collapsed, one page allowed. */
    constructor ()
      ensures !showReplyForm && !showReplies && visibleRepliesCount == REPLIES_PER_PAGE
    {
      showReplyForm := false;
      showReplies := false;
      visibleRepliesCount := REPLIES_PER_PAGE;
    }

    /** The "Reply" button opens or closes the reply form. */
    method HandleReplyClick()
      modifies this
      ensures showReplyForm == !old(showReplyForm)
      ensures showReplies == old(showReplies) && visibleRepliesCount == old(visibleRepliesCount)
    {
      showReplyForm := !showReplyForm;
    }

    /** The "Show / Hide n replies" button expands or collapses the replies. */
    method ToggleReplies()
      modifies this
      ensures showReplies == !old(showReplies)
      ensures showReplyForm == old(showReplyForm) && visibleRepliesCount == old(visibleRepliesCount)
    {
      showReplies := !showReplies;
    }

    /** "Load more" allows one more page. */
    method HandleLoadMore()
      modifies this
      ensures visibleRepliesCount == old(visibleRepliesCount) + REPLIES_PER_PAGE
      ensures showReplyForm == old(showReplyForm) && showReplies == old(showReplies)
    {
      visibleRepliesCount := visibleRepliesCount + REPLIES_PER_PAGE;
    }

    /** "Show all" allows every current reply. */
    method HandleShowAll(replyCount: nat)
      modifies this
      ensures visibleRepliesCount == replyCount
      ensures showReplyForm == old(showReplyForm) && showReplies == old(showReplies)
    {
      visibleRepliesCount := replyCount;
    }

    /**
     * Submitting the reply form: the form's payload goes on with this
     * comment's id as its parent, and the form closes.
     */
    method HandleReplySubmit(commentId: Id, replyData: Payload) returns (sent: Payload)
      modifies this
      ensures sent.content == replyData.content && sent.parentId == Some(commentId)
      ensures !showReplyForm
      ensures showReplies == old(showReplies) && visibleRepliesCount == old(visibleRepliesCount)
    {
      sent := replyData.(parentId := Some(commentId));
      showReplyForm := false;
    }
  }

  // ---------------------------------------------------------------------
  // The date line
  // ---------------------------------------------------------------------

  /**
   * The local calendar fields of a date, as `getFullYear`, `getMonth`
   * (zero-based), `getDate`, `getHours` and `getMinutes` return them.
   */
  datatype DateParts = DateParts(year: nat, month: nat, day: nat, hours: nat, minutes: nat)

  predicate ValidParts(p: DateParts)
  {
    p.month <= 11 && 1 <= p.day <= 31 && p.hours <= 23 && p.minutes <= 59
  }

  predicate IsDigit(c: char)
  {
    '0' <= c <= '9'
  }

  predicate AllDigits(s: string)
  {
    forall i :: 0 <= i < |s| ==> IsDigit(s[i])
  }

  function DigitChar(d: nat): (c: char)
    requires d < 10
    ensures IsDigit(c) && c as int - '0' as int == d
  {
    ('0' as int + d) as char
  }

  /** `String(n)`: the decimal digits of `n`, without leading zeros. */
  function Decimal(n: nat): (r: string)
    ensures |r| >= 1 && AllDigits(r)
    ensures n < 10 <==> |r| == 1
  {
    if n < 10 then [DigitChar(n)] else Decimal(n / 10) + [DigitChar(n % 10)]
  }

  /** The number a string of decimal digits denotes. */
  function DigitsValue(s: string): nat
    requires AllDigits(s)
  {
    if s == [] then 0
    else DigitsValue(s[..|s| - 1]) * 10 + (s[|s| - 1] as int - '0' as int)
  }

  /** Reading the digits back gives the number. */
  lemma {:induction false} DecimalValue(n: nat)
    ensures DigitsValue(Decimal(n)) == n
  {
    if n >= 10 {
      DecimalValue(n / 10);
      var r := Decimal(n);
      assert r[..|r| - 1] == Decimal(n / 10);
    }
  }

  /** `padStart(2, '0')`: `s` kept at the end, zeros in front up to two characters. */
  function PadStart2(s: string): (r: string)
    ensures |r| == if |s| >= 2 then |s| else 2
    ensures r[|r| - |s|..] == s
    ensures forall k :: 0 <= k < |r| - |s| ==> r[k] == '0'
  {
    if |s| >= 2 then s else seq(2 - |s|, _ => '0') + s
  }

  /** A calendar field printed with at least two digits, a leading zero below 10. */
  function TwoDigits(n: nat): (r: string)
    ensures |r| >= 2 && AllDigits(r)
    ensures n < 10 ==> r[0] == '0'
  {
    PadStart2(Decimal(n))
  }

  /** A field below 100 prints as exactly two digits that read back as the field. */
  lemma TwoDigitsValue(n: nat)
    requires n < 100
    ensures |TwoDigits(n)| == 2 && AllDigits(TwoDigits(n)) && DigitsValue(TwoDigits(n)) == n
  {
    DecimalValue(n);
    if n < 10 {
      var t := TwoDigits(n);
      assert t == ['0', DigitChar(n)];
      assert t[..1] == ['0'] && ['0'][..0] == [];
    } else {
      assert n / 10 < 10;
    }
  }

  const At: string := " \U{0432} "

  /** `formatDate`: day.month.year, the word for "at", hours:minutes. */
  function FormatDate(p: DateParts): string
  {
    TwoDigits(p.day) + "." + TwoDigits(p.month + 1) + "." + Decimal(p.year) + At
      + TwoDigits(p.hours) + ":" + TwoDigits(p.minutes)
  }

  /**
   * Reading a date line back into its fields: two-digit day and month, a
   * year of one or more digits, two-digit hours and minutes; `None` for any
   * other text.
   */
  function ParseDate(s: string): Option<DateParts>
  {
    if |s| < 15 then None
    else
      var day, month, year := s[0..2], s[3..5], s[6..|s| - 8];
      var hours, minutes := s[|s| - 5..|s| - 3], s[|s| - 2..];
      if s[2] == '.' && s[5] == '.' && s[|s| - 8..|s| - 5] == At && s[|s| - 3] == ':'
         && AllDigits(day) && AllDigits(month) && AllDigits(year) && AllDigits(hours) && AllDigits(minutes)
         && DigitsValue(month) >= 1
      then Some(DateParts(DigitsValue(year), DigitsValue(month) - 1, DigitsValue(day),
                          DigitsValue(hours), DigitsValue(minutes)))
      else None
  }

  /** Where the fields sit in a date line, whatever the length of the year. */
  lemma LayoutSlices(d: string, mo: string, y: string, h: string, mi: string)
    requires |d| == |mo| == |h| == |mi| == 2 && |y| >= 1
    ensures var s := d + "." + mo + "." + y + At + h + ":" + mi;
      && |s| >= 15
      && s[0..2] == d && s[2] == '.' && s[3..5] == mo && s[5] == '.'
      && s[6..|s| - 8] == y
      && s[|s| - 8..|s| - 5] == At && s[|s| - 5..|s| - 3] == h && s[|s| - 3] == ':' && s[|s| - 2..] == mi
  {
    var pre := d + "." + mo + ".";
    var post := At + h + ":" + mi;
    var s := d + "." + mo + "." + y + At + h + ":" + mi;
    assert s == pre + y + post;
    assert |pre| == 6 && |post| == 8;
    assert s[..6] == pre && s[6..|s| - 8] == y && s[|s| - 8..] == post;
    assert pre[0..2] == d && pre[3..5] == mo;
    assert post[0..3] == At && post[3..5] == h && post[6..] == mi;
  }

  /** Every valid date prints to a line that reads back as the same fields. */
  lemma FormatParse(p: DateParts)
    requires ValidParts(p)
    ensures ParseDate(FormatDate(p)) == Some(p)
  {
    TwoDigitsValue(p.day);
    TwoDigitsValue(p.month + 1);
    TwoDigitsValue(p.hours);
    TwoDigitsValue(p.minutes);
    DecimalValue(p.year);
    LayoutSlices(TwoDigits(p.day), TwoDigits(p.month + 1), Decimal(p.year), TwoDigits(p.hours), TwoDigits(p.minutes));
  }

  /** Different valid dates never print alike. */
  lemma FormatDateInjective(p: DateParts, q: DateParts)
    requires ValidParts(p) && ValidParts(q) && FormatDate(p) == FormatDate(q)
    ensures p == q
  {
    FormatParse(p);
    FormatParse(q);
  }
}
