/** The message HTTP handlers: the paginated history query over a channel's
    message log and the posting of a new message. */
module Messages {
  import opened Common
  import Channels

  /** A stored message. `createdAt` is the store's ordering key, abstracted as
      a strictly increasing stamp assigned at insertion. */
  datatype Message = Message(channel: ChannelId, sender: UserId, text: string, createdAt: nat)

  /** The body of a history reply. */
  datatype Page = Page(messages: seq<Message>, page: int, limit: int, total: nat, hasMore: bool)

  function Min(a: int, b: int): (m: int)
  {
    if a <= b then a else b
  }

  function Max(a: int, b: int): (m: int)
  {
    if a <= b then b else a
  }

  /** Oldest first, with no two messages sharing a stamp. */
  predicate Chronological(log: seq<Message>) {
    forall i, j :: 0 <= i < j < |log| ==> log[i].createdAt < log[j].createdAt
  }

  // ---------------------------------------------------------------------
  // Sequence views of the log
  // ---------------------------------------------------------------------

  /** The channel's messages, in log order (`find({channel})`). */
  function History(log: seq<Message>, c: ChannelId): (h: seq<Message>)
    ensures forall m :: m in h <==> m in log && m.channel == c
  {
    if log == [] then []
    else
      var rest := History(log[1..], c);
      assert log == [log[0]] + log[1..];
      if log[0].channel == c then [log[0]] + rest else rest
  }

  /** A channel's history of a chronological log is itself chronological. */
  lemma {:induction false} HistoryChronological(log: seq<Message>, c: ChannelId)
    requires Chronological(log)
    ensures Chronological(History(log, c))
  {
    if log != [] {
      var tail := log[1..];
      SliceChronological(log, 1, |log|);
      HistoryChronological(tail, c);
      if log[0].channel == c {
        var rest := History(tail, c);
        forall m | m in rest ensures log[0].createdAt < m.createdAt {
          assert m in tail;
          var x :| 0 <= x < |tail| && tail[x] == m;
          assert tail[x] == log[x + 1];
        }
        ChronologicalCons(log[0], rest);
      }
    }
  }

  /** A message older than every message of a chronological log can be put
      in front of it. */
  lemma ChronologicalCons(m: Message, log: seq<Message>)
    requires Chronological(log) && forall x :: x in log ==> m.createdAt < x.createdAt
    ensures Chronological([m] + log)
  {
    var h := [m] + log;
    forall i, j | 0 <= i < j < |h| ensures h[i].createdAt < h[j].createdAt {
      assert h[j] == log[j - 1];
      if i > 0 {
        assert h[i] == log[i - 1];
      }
    }
  }

  function Reverse<T>(s: seq<T>): (r: seq<T>)
    ensures |r| == |s|
    ensures forall i :: 0 <= i < |s| ==> r[i] == s[|s| - 1 - i]
  {
    seq(|s|, i requires 0 <= i < |s| => s[|s| - 1 - i])
  }

  /** `.skip(skip).limit(limit)`: the elements at positions
      `[skip, skip + limit)`, clamped to the sequence. */
  function Window<T>(s: seq<T>, skip: nat, limit: nat): (w: seq<T>)
    ensures |w| == Min(limit, Max(0, |s| - skip))
  {
    s[Min(skip, |s|)..Min(skip + limit, |s|)]
  }

  /** Reversing a chronological history orders it newest first: this is the
      `sort({createdAt: -1})` the query asks for. */
  lemma NewestFirst(h: seq<Message>)
    requires Chronological(h)
    ensures forall i, j :: 0 <= i < j < |h| ==> Reverse(h)[i].createdAt > Reverse(h)[j].createdAt
  {
  }

  // ---------------------------------------------------------------------
  // getMessages
  // ---------------------------------------------------------------------

  /** `parseInt(q, 10) || d`: `None` stands for a missing or non-numeric
      parameter (NaN); NaN and 0 are falsy and fall back to `d`. */
  function QueryInt(q: Option<int>, d: int): (n: int)
    ensures q.None? ==> n == d
    ensures q.Some? && q.value == 0 ==> n == d
    ensures q.Some? && q.value != 0 ==> n == q.value
    ensures d != 0 ==> n != 0
  {
    if q.None? || q.value == 0 then d else q.value
  }

  function Abs(x: int): (n: nat)
    ensures n == x || n == -x
  {
    if x < 0 then -x else x
  }

  /** The parameter combinations whose `skip = (page - 1) * limit` is
      negative: a page below 1 with a positive limit, or a page above 1 with
      a negative limit. The store rejects a negative skip. */
  predicate NegativeSkip(page: int, limit: int) {
    (page < 1 && limit > 0) || (page > 1 && limit < 0)
  }

  lemma SkipSign(page: int, limit: int)
    requires limit != 0
    ensures (page - 1) * limit < 0 <==> NegativeSkip(page, limit)
  {
    var x := page - 1;
    if x == 0 {
    } else if x < 0 && limit > 0 {
      MulPositive(-x, limit);
      assert x * limit == -((-x) * limit);
    } else if x > 0 && limit < 0 {
      MulPositive(x, -limit);
      assert x * limit == -(x * (-limit));
    } else if x > 0 {
      MulPositive(x, limit);
    } else {
      MulPositive(-x, -limit);
      assert x * limit == (-x) * (-limit);
    }
  }

  lemma {:induction false} MulPositive(a: int, b: int)
    requires a > 0 && b > 0
    ensures a * b > 0
    decreases a
  {
    if a > 1 {
      MulPositive(a - 1, b);
      assert a * b == (a - 1) * b + b;
    }
  }

  /** `.sort({createdAt: -1}).skip(skip).limit(size)` followed by
      `.reverse()`: a window of the newest-first order, turned back to
      oldest first. */
  function NewestWindow(h: seq<Message>, skip: nat, size: nat): (w: seq<Message>)
    ensures |w| == Min(size, Max(0, |h| - skip))
  {
    Reverse(Window(Reverse(h), skip, size))
  }

  /** The messages of page `page` (from 1) at `limit` per page. */
  function PageWindow(h: seq<Message>, page: nat, limit: nat): (w: seq<Message>)
    requires page >= 1
  {
    NewestWindow(h, (page - 1) * limit, limit)
  }

  /** The history query: parse and default `page` and `limit`, answer 403 to
      a non-member before reading any message, then count the channel's
      messages and fetch one window of them. The store takes a negative
      limit as its absolute value and rejects a negative skip, which the
      handler's catch turns into 500. */
  function GetMessages(log: seq<Message>, members: seq<Channels.Membership>, c: ChannelId, u: UserId,
                       pageQ: Option<int>, limitQ: Option<int>): (r: Reply<Page>)
    ensures var page, limit := QueryInt(pageQ, 1), QueryInt(limitQ, 20);
            && (r.Fail? <==> !Channels.IsMember(members, c, u) || NegativeSkip(page, limit))
            && (!Channels.IsMember(members, c, u) ==> r == Fail(Forbidden, "Not a member of this channel"))
            && (Channels.IsMember(members, c, u) && NegativeSkip(page, limit) ==>
                  r == Fail(ServerError, "Server error"))
    ensures r.Ok? ==>
              && r.body.page == QueryInt(pageQ, 1)
              && r.body.limit == QueryInt(limitQ, 20)
              && r.body.total == |History(log, c)|
              && (r.body.hasMore <==> r.body.page * r.body.limit < r.body.total)
  {
    var page := QueryInt(pageQ, 1);
    var limit := QueryInt(limitQ, 20);
    var skip := (page - 1) * limit;
    SkipSign(page, limit);
    if !Channels.IsMember(members, c, u) then Fail(Forbidden, "Not a member of this channel")
    else if skip < 0 then Fail(ServerError, "Server error")
    else
      var h := History(log, c);
      Ok(Page(NewestWindow(h, skip, Abs(limit)), page, limit, |h|, page * limit < |h|))
  }

  /** Windowing the newest-first order at `[skip, skip + limit)` and
      reversing picks the contiguous block of the ascending history that ends
      `skip` messages before the newest, clamped at both ends. */
  lemma ReversedWindowIsBlock<T>(h: seq<T>, skip: nat, limit: nat)
    ensures var n := |h|;
            Reverse(Window(Reverse(h), skip, limit)) == h[n - Min(skip + limit, n)..n - Min(skip, n)]
  {
    var n := |h|;
    var a, b := Min(skip, n), Min(skip + limit, n);
    var rev := Reverse(h);
    var win := Window(rev, skip, limit);
    assert win == rev[a..b];
    var w := Reverse(win);
    var block := h[n - b..n - a];
    assert |w| == |block| == b - a;
    forall i | 0 <= i < |w| ensures w[i] == block[i] {
      calc {
        w[i];
        win[b - a - 1 - i];
        rev[b - 1 - i];
        h[n - b + i];
        block[i];
      }
    }
  }

  /** A page is the block of the ascending history between the newest
      `page * limit` and the newest `(page - 1) * limit` messages. */
  lemma PageWindowIsBlock(h: seq<Message>, page: nat, limit: nat)
    requires page >= 1
    ensures var n := |h|;
            PageWindow(h, page, limit) == h[n - Min(page * limit, n)..n - Min((page - 1) * limit, n)]
  {
    NextMultiple(page, limit);
    ReversedWindowIsBlock(h, (page - 1) * limit, limit);
  }

  lemma NextMultiple(k: nat, limit: nat)
    requires k >= 1
    ensures k * limit == (k - 1) * limit + limit
  {
  }

  /** What a window of history `h` must be: the block of `h` that ends
      `skip` messages before the newest, oldest first, of length
      `min(size, max(0, total - skip))`, and so empty once `skip` reaches
      the total. */
  ghost predicate IsBlock(h: seq<Message>, skip: int, size: nat, w: seq<Message>) {
    && skip >= 0
    && w == h[|h| - Min(skip + size, |h|)..|h| - Min(skip, |h|)]
    && |w| == Min(size, Max(0, |h| - skip))
    && Chronological(w)
  }

  /** The window fetched from a chronological history is that block. */
  lemma PageFacts(h: seq<Message>, skip: nat, size: nat)
    requires Chronological(h)
    ensures IsBlock(h, skip, size, NewestWindow(h, skip, size))
  {
    ReversedWindowIsBlock(h, skip, size);
    SliceChronological(h, |h| - Min(skip + size, |h|), |h| - Min(skip, |h|));
  }

  /** The answer to a member of a channel whose log is chronological, for a
      page and limit the store accepts, is the block of the channel's
      history that `skip = (page - 1) * limit` and `|limit|` describe; for a
      positive page and limit a page past the data is empty and reports no
      more. */
  lemma GetMessagesPage(log: seq<Message>, members: seq<Channels.Membership>, c: ChannelId, u: UserId,
                        pageQ: Option<int>, limitQ: Option<int>)
    requires Chronological(log) && Channels.IsMember(members, c, u)
    requires !NegativeSkip(QueryInt(pageQ, 1), QueryInt(limitQ, 20))
    ensures var r := GetMessages(log, members, c, u, pageQ, limitQ);
            var page, limit := QueryInt(pageQ, 1), QueryInt(limitQ, 20);
            && r.Ok?
            && IsBlock(History(log, c), (page - 1) * limit, Abs(limit), r.body.messages)
            && (limit > 0 && (page - 1) * limit >= r.body.total ==> r.body.messages == [] && !r.body.hasMore)
  {
    var h := History(log, c);
    var page, limit := QueryInt(pageQ, 1), QueryInt(limitQ, 20);
    SkipSign(page, limit);
    var skip: nat := (page - 1) * limit;
    assert GetMessages(log, members, c, u, pageQ, limitQ)
        == Ok(Page(NewestWindow(h, skip, Abs(limit)), page, limit, |h|, page * limit < |h|));
    HistoryChronological(log, c);
    PageFacts(h, skip, Abs(limit));
    if limit > 0 {
      assert page >= 1;
      NextMultiple(page, limit);
    }
  }

  /** For a positive page and limit, `hasMore` says exactly that the next
      page has messages. */
  lemma HasMoreIffNextPageNonEmpty(h: seq<Message>, page: nat, limit: nat)
    requires page >= 1 && limit >= 1
    ensures page * limit < |h| <==> PageWindow(h, page + 1, limit) != []
  {
    ReversedWindowIsBlock(h, page * limit, limit);
  }

  lemma SliceChronological(h: seq<Message>, i: nat, j: nat)
    requires i <= j <= |h| && Chronological(h)
    ensures Chronological(h[i..j])
  {
    forall a, b | 0 <= a < b < j - i ensures h[i..j][a].createdAt < h[i..j][b].createdAt {
      assert h[i..j][a] == h[i + a] && h[i..j][b] == h[i + b];
    }
  }

  /** A non-member's answer does not depend on the log: membership is
      decided before any message is counted or fetched. */
  lemma ForbiddenReadsNoMessages(log1: seq<Message>, log2: seq<Message>, members: seq<Channels.Membership>,
                                 c: ChannelId, u: UserId, pageQ: Option<int>, limitQ: Option<int>)
    requires !Channels.IsMember(members, c, u)
    ensures GetMessages(log1, members, c, u, pageQ, limitQ) == GetMessages(log2, members, c, u, pageQ, limitQ)
  {
  }

  /** What a client holds after loading pages k, k-1, ..., 1 and prepending
      each older page to what it had. */
  function Loaded(h: seq<Message>, limit: nat, k: nat): (loaded: seq<Message>)
  {
    if k == 0 then [] else PageWindow(h, k, limit) + Loaded(h, limit, k - 1)
  }

  /** Pages 1..k, concatenated in reverse page order, are exactly the newest
      `min(k * limit, total)` messages, oldest first: no gap, no overlap. */
  lemma {:induction false} LoadedIsSuffix(h: seq<Message>, limit: nat, k: nat)
    ensures Loaded(h, limit, k) == h[|h| - Min(k * limit, |h|)..]
  {
    if k > 0 {
      LoadedIsSuffix(h, limit, k - 1);
      LoadedStep(h, limit, k);
    }
  }

  /** Loading page `k` on top of pages `k - 1, ..., 1` extends the suffix by
      the next block. */
  lemma LoadedStep(h: seq<Message>, limit: nat, k: nat)
    requires k >= 1
    requires Loaded(h, limit, k - 1) == h[|h| - Min((k - 1) * limit, |h|)..]
    ensures Loaded(h, limit, k) == h[|h| - Min(k * limit, |h|)..]
  {
    NextMultiple(k, limit);
    WindowExtendsSuffix(h, (k - 1) * limit, limit, k * limit);
  }

  /** The window at `[skip, skip + size)` of the newest-first order, put in
      front of the newest `skip` messages, gives the newest `skip + size`. */
  lemma WindowExtendsSuffix(h: seq<Message>, skip: nat, size: nat, next: nat)
    requires next == skip + size
    ensures NewestWindow(h, skip, size) + h[|h| - Min(skip, |h|)..] == h[|h| - Min(next, |h|)..]
  {
    ReversedWindowIsBlock(h, skip, size);
    var n := |h|;
    var i, j := n - Min(next, n), n - Min(skip, n);
    assert h[i..j] + h[j..] == h[i..];
  }

  /** Scrolling back until a page answers `hasMore == false` reconstructs the
      channel's whole history in ascending order. */
  lemma PagesReconstructHistory(log: seq<Message>, members: seq<Channels.Membership>, c: ChannelId, u: UserId,
                                limit: nat, k: nat)
    requires limit >= 1 && k >= 1 && Channels.IsMember(members, c, u)
    requires !GetMessages(log, members, c, u, Some(k), Some(limit)).body.hasMore
    ensures Loaded(History(log, c), limit, k) == History(log, c)
    ensures forall p :: 1 <= p <= k ==>
              GetMessages(log, members, c, u, Some(p), Some(limit)).body.messages == PageWindow(History(log, c), p, limit)
  {
    LoadedIsSuffix(History(log, c), limit, k);
    forall p | 1 <= p <= k
      ensures GetMessages(log, members, c, u, Some(p), Some(limit)).body.messages == PageWindow(History(log, c), p, limit)
    {
      PositivePage(log, members, c, u, p, limit);
      PageWindowIsBlock(History(log, c), p, limit);
    }
  }

  /** For a member and a positive page and limit, the answer is the block of
      the ascending history between the newest `page * limit` and the newest
      `(page - 1) * limit` messages, with the parameters echoed, the total,
      and `hasMore` set exactly when messages older than the block exist. */
  lemma PositivePage(log: seq<Message>, members: seq<Channels.Membership>, c: ChannelId, u: UserId,
                     page: nat, limit: nat)
    requires page >= 1 && limit >= 1 && Channels.IsMember(members, c, u)
    ensures var h := History(log, c);
            var n := |h|;
            GetMessages(log, members, c, u, Some(page), Some(limit))
              == Ok(Page(h[n - Min(page * limit, n)..n - Min((page - 1) * limit, n)], page, limit, n,
                         n - Min(page * limit, n) > 0))
  {
    PositivePageWindow(log, members, c, u, page, limit);
    PageWindowIsBlock(History(log, c), page, limit);
    var n, m := |History(log, c)|, page * limit;
    assert (m < n) == (n - Min(m, n) > 0);
  }

  /** A positive page of a member's history is the page window, unfolded. */
  lemma PositivePageWindow(log: seq<Message>, members: seq<Channels.Membership>, c: ChannelId, u: UserId,
                           page: nat, limit: nat)
    requires page >= 1 && limit >= 1 && Channels.IsMember(members, c, u)
    ensures var h := History(log, c);
            GetMessages(log, members, c, u, Some(page), Some(limit))
              == Ok(Page(PageWindow(h, page, limit), page, limit, |h|, page * limit < |h|))
  {
    SkipSign(page, limit);
    assert Abs(limit) == limit;
  }

  /** The worked example: 45 messages, 20 per page. Page 1 holds the newest
      20, page 2 the 20 before them, page 3 the oldest 5; only page 3 says
      there is no more. */
  lemma FortyFiveMessagesInPagesOfTwenty(log: seq<Message>, members: seq<Channels.Membership>, c: ChannelId, u: UserId)
    requires Channels.IsMember(members, c, u) && |History(log, c)| == 45
    ensures var h := History(log, c);
            && GetMessages(log, members, c, u, Some(1), None) == Ok(Page(h[25..45], 1, 20, 45, true))
            && GetMessages(log, members, c, u, Some(2), None) == Ok(Page(h[5..25], 2, 20, 45, true))
            && GetMessages(log, members, c, u, Some(3), None) == Ok(Page(h[0..5], 3, 20, 45, false))
  {
    var h := History(log, c);
    PageWindowIsBlock(h, 1, 20);
    PageWindowIsBlock(h, 2, 20);
    PageWindowIsBlock(h, 3, 20);
  }

  // ---------------------------------------------------------------------
  // sendMessage
  // ---------------------------------------------------------------------

  /** The characters `String.prototype.trim` strips: ECMAScript WhiteSpace and
      LineTerminator. */
  predicate IsJsSpace(ch: char) {
    || ch == '\t' || ch == '\n' || ch == '\U{000B}' || ch == '\U{000C}' || ch == '\r' || ch == ' '
    || ch == '\U{00A0}' || ch == '\U{1680}' || ('\U{2000}' <= ch <= '\U{200A}')
    || ch == '\U{2028}' || ch == '\U{2029}' || ch == '\U{202F}' || ch == '\U{205F}'
    || ch == '\U{3000}' || ch == '\U{FEFF}'
  }

  predicate AllSpace(s: string) {
    forall i :: 0 <= i < |s| ==> IsJsSpace(s[i])
  }

  /** The number of whitespace characters `s` starts with. */
  function LeadingSpaces(s: string): (n: nat)
    ensures n <= |s| && forall k :: 0 <= k < n ==> IsJsSpace(s[k])
    ensures n == |s| || !IsJsSpace(s[n])
  {
    if s != [] && IsJsSpace(s[0]) then
      var n := LeadingSpaces(s[1..]);
      assert forall k :: 1 <= k < |s| ==> s[k] == s[1..][k - 1];
      n + 1
    else 0
  }

  /** The number of whitespace characters `s` ends with. */
  function TrailingSpaces(s: string): (n: nat)
    ensures n <= |s| && forall k :: |s| - n <= k < |s| ==> IsJsSpace(s[k])
    ensures n == |s| || !IsJsSpace(s[|s| - n - 1])
  {
    if s != [] && IsJsSpace(s[|s| - 1]) then
      var n := TrailingSpaces(s[..|s| - 1]);
      assert forall k :: 0 <= k < |s| - 1 ==> s[k] == s[..|s| - 1][k];
      n + 1
    else 0
  }

  function TrimStart(s: string): (r: string)
    ensures |r| <= |s|
    ensures r == [] || !IsJsSpace(r[0])
  {
    s[LeadingSpaces(s)..]
  }

  function TrimEnd(s: string): (r: string)
    ensures |r| <= |s|
    ensures r == [] || !IsJsSpace(r[|r| - 1])
  {
    s[..|s| - TrailingSpaces(s)]
  }

  /** `String.prototype.trim`: the result is no longer than the input and
      neither starts nor ends with whitespace. */
  function Trim(s: string): (r: string)
    ensures |r| <= |s|
    ensures r == [] || (!IsJsSpace(r[0]) && !IsJsSpace(r[|r| - 1]))
  {
    var t := TrimStart(s);
    var r := TrimEnd(t);
    assert r == [] || r[0] == t[0];
    r
  }

  /** Trim removes only whitespace, from both ends (the first `i` and the
      last `|s| - j` characters), and leaves a result that neither starts nor
      ends with whitespace. */
  lemma TrimSpec(s: string)
    ensures var i := |s| - |TrimStart(s)|;
            var j := i + |Trim(s)|;
            && j <= |s|
            && Trim(s) == s[i..j]
            && (forall k :: 0 <= k < i ==> IsJsSpace(s[k]))
            && (forall k :: j <= k < |s| ==> IsJsSpace(s[k]))
    ensures Trim(s) == [] || (!IsJsSpace(Trim(s)[0]) && !IsJsSpace(Trim(s)[|Trim(s)| - 1]))
  {
    var i := LeadingSpaces(s);
    var t := s[i..];
    var e := TrailingSpaces(t);
    var j := |s| - e;
    assert Trim(s) == t[..|t| - e] == s[i..j];
    forall k | j <= k < |s| ensures IsJsSpace(s[k]) {
      assert s[k] == t[k - i];
    }
    if i < j {
      assert Trim(s)[0] == s[i];
      assert Trim(s)[j - i - 1] == t[|t| - e - 1];
    }
  }

  /** Trim gives the empty string exactly when the input is all whitespace. */
  lemma TrimEmptyIffAllSpace(s: string)
    ensures Trim(s) == [] <==> AllSpace(s)
  {
    TrimSpec(s);
    var i := |s| - |TrimStart(s)|;
    if Trim(s) != [] {
      assert Trim(s)[0] == s[i];
    }
  }

  /** Trimming twice is trimming once. */
  lemma TrimIdempotent(s: string)
    ensures Trim(Trim(s)) == Trim(s)
  {
    TrimSpec(s);
  }

  /** The checks of the post handler, in order: 400 for missing or
      whitespace-only text, then 403 for a non-member; otherwise the text to
      store is the trimmed text. */
  function CheckPost(members: seq<Channels.Membership>, c: ChannelId, u: UserId, text: Option<string>): (r: Reply<string>)
    ensures (text.None? || Trim(text.value) == "") ==> r == Fail(BadRequest, "Message text is required")
    ensures text.Some? && Trim(text.value) != "" && !Channels.IsMember(members, c, u) ==>
              r == Fail(Forbidden, "Not a member of this channel")
    ensures r.Ok? <==> text.Some? && Trim(text.value) != "" && Channels.IsMember(members, c, u)
    ensures r.Ok? ==> r.body == Trim(text.value)
  {
    if !Truthy(text) || Trim(text.value) == "" then Fail(BadRequest, "Message text is required")
    else if !Channels.IsMember(members, c, u) then Fail(Forbidden, "Not a member of this channel")
    else Ok(Trim(text.value))
  }

  /** A stored message's text is non-empty and has no surrounding whitespace. */
  lemma PostedTextIsTrimmed(members: seq<Channels.Membership>, c: ChannelId, u: UserId, text: Option<string>)
    requires CheckPost(members, c, u, text).Ok?
    ensures var t := CheckPost(members, c, u, text).body;
            t != "" && !IsJsSpace(t[0]) && !IsJsSpace(t[|t| - 1]) && Trim(t) == t
  {
    var t := Trim(text.value);
    assert CheckPost(members, c, u, text).body == t;
    TrimSpec(text.value);
    TrimIdempotent(text.value);
  }

  /** A message just appended to a chronological log is the newest entry of
      page 1 of its channel: the history query reads the sender's write. */
  lemma ReadYourWrite(log: seq<Message>, m: Message, members: seq<Channels.Membership>, u: UserId, limit: nat)
    requires limit >= 1 && Channels.IsMember(members, m.channel, u)
    requires Chronological(log) && forall k :: 0 <= k < |log| ==> log[k].createdAt < m.createdAt
    ensures var r := GetMessages(log + [m], members, m.channel, u, Some(1), Some(limit));
            r.Ok? && r.body.messages != [] && r.body.messages[|r.body.messages| - 1] == m
  {
    var h := History(log + [m], m.channel);
    HistoryAppend(log, m);
    PositivePage(log + [m], members, m.channel, u, 1, limit);
    assert h[|h| - 1] == m;
  }

  lemma {:induction false} HistoryAppend(log: seq<Message>, m: Message)
    ensures History(log + [m], m.channel) == History(log, m.channel) + [m]
  {
    if log != [] {
      assert (log + [m])[1..] == log[1..] + [m];
      HistoryAppend(log[1..], m);
    }
  }

  /** The Message collection, appended to in place by the post handler; the
      store stamps each message with the next value of `clock`. */
  class MessageLog {
    var log: seq<Message>
    var clock: nat

    ghost predicate Valid()
      reads this
    {
      Chronological(log) && forall k :: 0 <= k < |log| ==> log[k].createdAt < clock
    }

    constructor ()
      ensures Valid() && log == []
    {
      log, clock := [], 0;
    }

    /** The post handler: validate, check membership, append one message
      carrying the trimmed text, the channel and the requester. */
    method SendMessage(members: seq<Channels.Membership>, c: ChannelId, u: UserId, text: Option<string>)
      returns (r: Reply<Message>)
      requires Valid()
      modifies this
      ensures Valid()
      ensures CheckPost(members, c, u, text).Fail? ==>
                && log == old(log) && clock == old(clock)
                && r == Fail(CheckPost(members, c, u, text).status, CheckPost(members, c, u, text).message)
      ensures CheckPost(members, c, u, text).Ok? ==>
                && r == Ok(Message(c, u, Trim(text.value), old(clock)))
                && log == old(log) + [r.body] && clock == old(clock) + 1
    {
      if !Truthy(text) || Trim(text.value) == "" {
        return Fail(BadRequest, "Message text is required");
      }
      if !Channels.IsMember(members, c, u) {
        return Fail(Forbidden, "Not a member of this channel");
      }
      var m := Message(c, u, Trim(text.value), clock);
      log := log + [m];
      clock := clock + 1;
      r := Ok(m);
    }
  }
}
