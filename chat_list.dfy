/** The chat list: one preview per match (partner, last message), the
    most recently active first, with a relative time label and a preview
    line. Times are milliseconds since the epoch. */
module ChatList {

  import opened Schema
  import Chat

  datatype ChatPreview = ChatPreview(matchRow: Match, partner: Option<Profile>, lastMessage: Option<Message>)

  /** The preview of one match: the partner is the participant who is not
      the user, looked up with `.single()`; the last message is given. */
  function PreviewFor(m: Match, profiles: seq<Profile>, user: UserId, last: Option<Message>): (c: ChatPreview)
    ensures c.matchRow == m && c.lastMessage == last
    ensures c.partner.Some? ==> c.partner.value in profiles && c.partner.value.userId == PartnerId(m, user)
    ensures c.partner.Some? && (m.user1 == user || m.user2 == user) && m.user1 != m.user2 ==>
      c.partner.value.userId != user
  {
    ChatPreview(m, FindProfile(profiles, PartnerId(m, user)), last)
  }

  /** `lastMessage?.created_at || match.created_at`. */
  function Activity(c: ChatPreview): int
  {
    if c.lastMessage.Some? then c.lastMessage.value.createdAt else c.matchRow.createdAt
  }

  /** `.filter(c => c.partner)`. */
  function WithPartner(cs: seq<ChatPreview>): (r: seq<ChatPreview>)
    ensures forall c :: c in r <==> c in cs && c.partner.Some?
    ensures multiset(r) <= multiset(cs)
  {
    if cs == [] then []
    else
      assert cs == [cs[0]] + cs[1..];
      (if cs[0].partner.Some? then [cs[0]] else []) + WithPartner(cs[1..])
  }

  predicate SortedByActivity(s: seq<ChatPreview>)
  {
    forall i, j :: 0 <= i < j < |s| ==> Activity(s[i]) >= Activity(s[j])
  }

  /** Put `c` in front of the first entry that is not more recent, so that
      entries of equal activity keep their order. */
  function Insert(c: ChatPreview, s: seq<ChatPreview>): (r: seq<ChatPreview>)
    requires SortedByActivity(s)
    ensures SortedByActivity(r)
    ensures multiset(r) == multiset(s) + multiset{c}
  {
    if s == [] || Activity(s[0]) <= Activity(c) then [c] + s
    else
      var rest := Insert(c, s[1..]);
      InsertBehindHead(c, s, rest);
      [s[0]] + rest
  }

  /** Putting back the head of a sorted list in front of the insertion into
      its tail, when the head is more recent than the inserted preview. */
  lemma InsertBehindHead(c: ChatPreview, s: seq<ChatPreview>, rest: seq<ChatPreview>)
    requires s != [] && SortedByActivity(s) && Activity(s[0]) > Activity(c)
    requires SortedByActivity(rest) && multiset(rest) == multiset(s[1..]) + multiset{c}
    ensures SortedByActivity([s[0]] + rest)
    ensures multiset([s[0]] + rest) == multiset(s) + multiset{c}
  {
    assert multiset(s) == multiset{s[0]} + multiset(s[1..]) by {
      assert s == [s[0]] + s[1..];
    }
    forall x | x in rest
      ensures Activity(s[0]) >= Activity(x)
    {
      assert x in multiset(rest);
      if x != c {
        assert x in multiset(s[1..]);
        var k :| 0 <= k < |s[1..]| && s[1..][k] == x;
        assert s[k + 1] == x;
      }
    }
    var r := [s[0]] + rest;
    forall i, j | 0 <= i < j < |r|
      ensures Activity(r[i]) >= Activity(r[j])
    {
      if i == 0 {
        assert r[j] == rest[j - 1];
        assert r[j] in rest;
      } else {
        assert r[i] == rest[i - 1] && r[j] == rest[j - 1];
      }
    }
  }

  /** `.sort((a, b) => timeB - timeA)`: a stable sort, most recent first. */
  function SortByActivity(cs: seq<ChatPreview>): (r: seq<ChatPreview>)
    ensures SortedByActivity(r)
    ensures multiset(r) == multiset(cs)
  {
    if cs == [] then []
    else
      assert cs == [cs[0]] + cs[1..];
      Insert(cs[0], SortByActivity(cs[1..]))
  }

  /** The list on screen: exactly the previews with a partner profile,
      most recently active first. */
  function SortedChats(previews: seq<ChatPreview>): (r: seq<ChatPreview>)
    ensures SortedByActivity(r)
    ensures multiset(r) == multiset(WithPartner(previews))
    ensures forall c :: c in r <==> c in previews && c.partner.Some?
  {
    var r := SortByActivity(WithPartner(previews));
    assert forall c :: c in r <==> c in multiset(WithPartner(previews));
    r
  }

  /** Milliseconds in a day. */
  const Day := 1000 * 60 * 60 * 24

  /** The four kinds of label `formatTime` produces; the labels themselves
      are locale formatting. */
  datatype TimeLabel = TimeOfDay | Yesterday | Weekday | MonthDay

  /** `days = Math.floor(diff / 86400000)`; Dafny's division by a positive
      divisor rounds down like `Math.floor`. */
  function DaysAgo(now: int, t: int): int
  {
    (now - t) / Day
  }

  function FormatTime(now: int, t: int): (l: TimeLabel)
    ensures l == TimeOfDay <==> 0 <= now - t < Day
    ensures l == Yesterday <==> Day <= now - t < 2 * Day
    ensures l == Weekday <==> (now - t < 0 || 2 * Day <= now - t) && now - t < 7 * Day
    ensures l == MonthDay <==> 7 * Day <= now - t
  {
    var days := DaysAgo(now, t);
    DaysAgoBounds(now, t);
    if days == 0 then TimeOfDay
    else if days == 1 then Yesterday
    else if days < 7 then Weekday
    else MonthDay
  }

  lemma DaysAgoBounds(now: int, t: int)
    ensures DaysAgo(now, t) * Day <= now - t < DaysAgo(now, t) * Day + Day
  {
  }

  /** The placeholder shown for a match without messages. */
  const Placeholder := "Start the conversation! \U{1F4AC}"

  /** The preview line: the placeholder without a message, otherwise the
      message's content, behind "You: " exactly when the user sent it. */
  function PreviewText(c: ChatPreview, user: Option<UserId>): (s: string)
    ensures c.lastMessage.None? ==> s == Placeholder
    ensures c.lastMessage.Some? ==>
      var content := c.lastMessage.value.content;
      && |content| <= |s| && s[|s| - |content|..] == content
      && (s == YouPrefix + content <==> user.Some? && c.lastMessage.value.senderId == user.value)
      && (s == content <==> !(user.Some? && c.lastMessage.value.senderId == user.value))
  {
    if c.lastMessage.Some? then
      (if user.Some? && c.lastMessage.value.senderId == user.value then YouPrefix else "") + c.lastMessage.value.content
    else Placeholder
  }

  const YouPrefix := "You: "

  /** The chat list and the chat screen agree on whose message it is: the
      preview carries "You: " in front of the content exactly when the chat
      screen shows the message as the user's own. */
  lemma PreviewAgreesWithChat(c: ChatPreview, user: Option<UserId>)
    requires c.lastMessage.Some?
    ensures PreviewText(c, user) == YouPrefix + c.lastMessage.value.content <==> Chat.IsOwn(c.lastMessage.value, user)
    ensures PreviewText(c, user) == c.lastMessage.value.content <==> !Chat.IsOwn(c.lastMessage.value, user)
  {
  }

  /** Seen from the text alone, the "You: " prefix is ambiguous: a line
      starts with it when the user sent the message or when the message
      itself starts with it. */
  lemma PreviewPrefix(c: ChatPreview, user: Option<UserId>)
    requires c.lastMessage.Some?
    ensures var s := PreviewText(c, user);
            var content := c.lastMessage.value.content;
            (|s| >= |YouPrefix| && s[..|YouPrefix|] == YouPrefix)
            <==> ((user.Some? && c.lastMessage.value.senderId == user.value)
                  || (|content| >= |YouPrefix| && content[..|YouPrefix|] == YouPrefix))
  {
  }
}
