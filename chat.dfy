/** The chat screen of one match: the partner, the message list kept
    current by realtime inserts, the grouping of messages under date
    headers, and sending a message. */
module Chat {

  import opened Schema
  import opened Text
  import opened Store

  /** `message.sender_id === user?.id`. */
  function IsOwn(msg: Message, user: Option<UserId>): (b: bool)
    ensures b <==> user.Some? && msg.senderId == user.value
  {
    user.Some? && msg.senderId == user.value
  }

  /** One date header and the messages under it. */
  datatype Group = Group(date: string, messages: seq<Message>)

  /** The messages of the groups, group after group. */
  function Flatten(groups: seq<Group>): seq<Message>
  {
    if groups == [] then [] else Flatten(groups[..|groups| - 1]) + groups[|groups| - 1].messages
  }

  /** No group is empty, every message sits under its own date, and no two
      neighbouring groups have the same date. */
  predicate WellGrouped(groups: seq<Group>, dateOf: Message -> string)
  {
    && (forall g :: 0 <= g < |groups| ==> groups[g].messages != [])
    && (forall g, k :: 0 <= g < |groups| && 0 <= k < |groups[g].messages| ==>
          dateOf(groups[g].messages[k]) == groups[g].date)
    && (forall g :: 0 < g < |groups| ==> groups[g - 1].date != groups[g].date)
  }

  /** `groupedMessages`: a pass over the messages that either extends the
      last group, when the message has its date, or opens a new group.
      `dateOf` stands for `formatDate` (which reads the clock and the
      locale). The groups give back the messages in order, and are well
      grouped. */
  method GroupMessages(msgs: seq<Message>, dateOf: Message -> string) returns (groups: seq<Group>)
    ensures Flatten(groups) == msgs
    ensures WellGrouped(groups, dateOf)
  {
    groups := [];
    for i := 0 to |msgs|
      invariant Flatten(groups) == msgs[..i]
      invariant WellGrouped(groups, dateOf)
    {
      assert msgs[..i + 1] == msgs[..i] + [msgs[i]];
      groups := AddMessage(groups, msgs[i], dateOf);
    }
    assert msgs[..|msgs|] == msgs;
  }

  /** One step of the pass: push the message onto the last group when it
      has that group's date, otherwise open a new group for it. */
  function AddMessage(groups: seq<Group>, m: Message, dateOf: Message -> string): (next: seq<Group>)
    requires WellGrouped(groups, dateOf)
    ensures Flatten(next) == Flatten(groups) + [m]
    ensures WellGrouped(next, dateOf)
    ensures next != [] && next[|next| - 1].date == dateOf(m)
  {
    var date := dateOf(m);
    if groups != [] && groups[|groups| - 1].date == date then
      ExtendLastKeeps(groups, m, dateOf);
      groups[..|groups| - 1] + [Group(date, groups[|groups| - 1].messages + [m])]
    else
      OpenGroupKeeps(groups, m, dateOf);
      groups + [Group(date, [m])]
  }

  /** Pushing a message onto the last group, when it has that group's date. */
  lemma ExtendLastKeeps(groups: seq<Group>, m: Message, dateOf: Message -> string)
    requires WellGrouped(groups, dateOf)
    requires groups != [] && groups[|groups| - 1].date == dateOf(m)
    ensures var next := groups[..|groups| - 1] + [Group(dateOf(m), groups[|groups| - 1].messages + [m])];
            && Flatten(next) == Flatten(groups) + [m]
            && WellGrouped(next, dateOf)
            && next[|next| - 1].date == dateOf(m)
  {
    var prefix := groups[..|groups| - 1];
    var last := groups[|groups| - 1];
    var next := prefix + [Group(dateOf(m), last.messages + [m])];
    assert next[..|next| - 1] == prefix;
    assert Flatten(next) == Flatten(prefix) + (last.messages + [m]);
    assert forall g :: 0 <= g < |prefix| ==> next[g] == groups[g];
  }

  /** Opening a new group for a message whose date differs from the last
      group's. */
  lemma OpenGroupKeeps(groups: seq<Group>, m: Message, dateOf: Message -> string)
    requires WellGrouped(groups, dateOf)
    requires groups == [] || groups[|groups| - 1].date != dateOf(m)
    ensures var next := groups + [Group(dateOf(m), [m])];
            && Flatten(next) == Flatten(groups) + [m]
            && WellGrouped(next, dateOf)
            && next[|next| - 1].date == dateOf(m)
  {
    var next := groups + [Group(dateOf(m), [m])];
    assert next[..|next| - 1] == groups;
    assert forall g :: 0 <= g < |groups| ==> next[g] == groups[g];
  }

  /** The match row with this id, with `.single()`. */
  function FindMatch(matches: seq<Match>, id: nat): (r: Option<Match>)
    ensures r.Some? ==> r.value in matches && r.value.id == id
    ensures r.None? <==> |MatchesWithId(matches, id)| != 1
  {
    var rows := MatchesWithId(matches, id);
    if |rows| == 1 then Some(rows[0]) else None
  }

  function MatchesWithId(matches: seq<Match>, id: nat): (rows: seq<Match>)
    ensures forall m :: m in rows <==> m in matches && m.id == id
  {
    if matches == [] then []
    else (if matches[0].id == id then [matches[0]] else []) + MatchesWithId(matches[1..], id)
  }

  /** The messages of one match, in table order. */
  function MessagesOf(messages: seq<Message>, matchId: nat): (r: seq<Message>)
    ensures forall m :: m in r <==> m in messages && m.matchId == matchId
  {
    if messages == [] then []
    else (if messages[0].matchId == matchId then [messages[0]] else []) + MessagesOf(messages[1..], matchId)
  }

  class ChatView {
    /** The route's match id and the signed-in user. */
    var matchId: Option<nat>
    var user: Option<UserId>
    var partner: Option<Profile>
    var messages: seq<Message>
    /** The text in the input box. */
    var draft: string
    /** The "match not found" outcome of loading. */
    var missing: bool

    constructor (matchId: Option<nat>, user: Option<UserId>)
      ensures this.matchId == matchId && this.user == user
      ensures partner.None? && messages == [] && draft == [] && !missing
    {
      this.matchId := matchId;
      this.user := user;
      partner := None;
      messages := [];
      draft := [];
      missing := false;
    }

    /** The fetch on entering the screen: the match, the partner's profile
        (the participant who is not the user) and the match's messages. */
    method Load(db: Db)
      modifies this
      ensures matchId == old(matchId) && user == old(user) && draft == old(draft)
      ensures matchId.None? || user.None? ==> unchanged(this)
      ensures matchId.Some? && user.Some? && FindMatch(db.matches, matchId.value).None? ==>
        missing && partner == old(partner) && messages == old(messages)
      ensures matchId.Some? && user.Some? && FindMatch(db.matches, matchId.value).Some? ==>
        var m := FindMatch(db.matches, matchId.value).value;
        (&& missing == old(missing)
         && partner == FindProfile(db.profiles, PartnerId(m, user.value))
         && (partner.Some? && m.user1 != m.user2 && (m.user1 == user.value || m.user2 == user.value) ==>
               partner.value.userId != user.value)
         && messages == MessagesOf(db.messages, matchId.value))
    {
      if matchId.None? || user.None? {
        return;
      }
      var m := FindMatch(db.matches, matchId.value);
      if m.None? {
        missing := true;
        return;
      }
      partner := FindProfile(db.profiles, PartnerId(m.value, user.value));
      messages := MessagesOf(db.messages, matchId.value);
    }

    /** The realtime insert handler: the new message goes at the end. */
    method OnRealtimeInsert(msg: Message)
      modifies this
      ensures messages == old(messages) + [msg]
      ensures matchId == old(matchId) && user == old(user) && partner == old(partner)
      ensures draft == old(draft) && missing == old(missing)
    {
      messages := messages + [msg];
    }

    /** `handleSend`. Blank input, or no match id or user, does nothing.
        Otherwise the stored content is the trimmed input with the abusive
        words masked, so that none is left and clean text is kept as it
        is; when the store takes the row
        (`accepted`) the input box is cleared, and when it refuses it
        nothing changes. The local list is not touched: the row arrives
        through the realtime handler. */
    method HandleSend(db: Db, now: int, accepted: bool)
      requires db.Valid()
      modifies this, db
      ensures db.Valid()
      ensures matchId == old(matchId) && user == old(user) && partner == old(partner)
      ensures messages == old(messages) && missing == old(missing)
      ensures Trim(old(draft)) == [] || matchId.None? || user.None? || !accepted ==>
        unchanged(db) && draft == old(draft)
      ensures Trim(old(draft)) != [] && matchId.Some? && user.Some? && accepted ==>
        (&& db.messages == old(db.messages)
                           + [Message(old(db.nextId), matchId.value, user.value,
                                      Filtered(Trim(old(draft))), now)]
         && !HasAbusiveWord(db.messages[|db.messages| - 1].content)
         && (!HasAbusiveWord(Trim(old(draft))) ==> db.messages[|db.messages| - 1].content == Trim(old(draft)))
         && IsOwn(db.messages[|db.messages| - 1], user)
         && (partner.Some? && partner.value.userId != user.value ==>
               !IsOwn(db.messages[|db.messages| - 1], Some(partner.value.userId)))
         && draft == [])
      ensures db.invites == old(db.invites) && db.matches == old(db.matches) && db.profiles == old(db.profiles)
      ensures db.skips == old(db.skips) && db.blocks == old(db.blocks)
    {
      var text := Trim(draft);
      if text == [] || matchId.None? || user.None? || !accepted {
        return;
      }
      PostMessage(db, matchId.value, user.value, text, now);
      draft := [];
    }

    /** The insert of `handleSend`: one row holding the filtered text, in
        which no abusive word is left, shown as their own to the sender and
        to no one else. */
    method PostMessage(db: Db, id: nat, sender: UserId, text: string, now: int)
      requires db.Valid()
      modifies db
      ensures db.Valid()
      ensures db.messages == old(db.messages) + [Message(old(db.nextId), id, sender, Filtered(text), now)]
      ensures !HasAbusiveWord(db.messages[|db.messages| - 1].content)
      ensures !HasAbusiveWord(text) ==> db.messages[|db.messages| - 1].content == text
      ensures forall u :: IsOwn(db.messages[|db.messages| - 1], Some(u)) <==> u == sender
      ensures db.invites == old(db.invites) && db.matches == old(db.matches) && db.profiles == old(db.profiles)
      ensures db.skips == old(db.skips) && db.blocks == old(db.blocks)
    {
      var filtered := FilterContent(text);
      var msg := db.InsertMessage(id, sender, filtered, now);
      assert db.messages[|db.messages| - 1] == msg;
    }
  }
}
