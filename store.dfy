/** The store's tables held in memory, with the library operations that
    read and write them: `fetchRandomProfile`, `sendInvite` and
    `skipProfile`, plus the single-row updates and inserts the screens
    issue. Row ids come from one counter of the store (they stand for the
    store's generated uuids) and creation times are passed in. */
module Store {

  import opened Schema
  import opened Matching

  /** What `sendInvite` returns: `isMatch` and, on a match, the new row. */
  datatype InviteResult = InviteResult(isMatch: bool, matchRow: Option<Match>)

  /** The invites from `to` to `from`, of any status. */
  function ReciprocalRows(invites: seq<Invite>, from: UserId, to: UserId): (rows: seq<Invite>)
    ensures forall i :: i in rows <==> i in invites && i.fromUser == to && i.toUser == from
  {
    if invites == [] then []
    else (if invites[0].fromUser == to && invites[0].toUser == from then [invites[0]] else [])
         + ReciprocalRows(invites[1..], from, to)
  }

  /** The reciprocal lookup with `.single()`: the unique row, or none when
      there are zero or several. */
  function SingleReciprocal(invites: seq<Invite>, from: UserId, to: UserId): (r: Option<Invite>)
    ensures r.Some? ==> r.value in invites && r.value.fromUser == to && r.value.toUser == from
    ensures r.None? <==> |ReciprocalRows(invites, from, to)| != 1
  {
    var rows := ReciprocalRows(invites, from, to);
    if |rows| == 1 then Some(rows[0]) else None
  }

  /** `.update({ status }).eq('id', id)`: the rows with that id get the new
      status, every other field and every other row stay as they were. */
  function SetStatus(invites: seq<Invite>, id: nat, st: InviteStatus): (r: seq<Invite>)
    ensures |r| == |invites|
    ensures forall k :: 0 <= k < |r| ==>
      (r[k].id == invites[k].id && r[k].fromUser == invites[k].fromUser
       && r[k].toUser == invites[k].toUser && r[k].createdAt == invites[k].createdAt)
    ensures forall k :: 0 <= k < |r| ==> r[k].status == (if invites[k].id == id then st else invites[k].status)
  {
    seq(|invites|, k requires 0 <= k < |invites| =>
      if invites[k].id == id then invites[k].(status := st) else invites[k])
  }

  /** `.update({ daily_invites_used: n }).eq('user_id', user)`. */
  function SetDailyInvites(profiles: seq<Profile>, user: UserId, n: int): (r: seq<Profile>)
    ensures |r| == |profiles|
    ensures forall k :: 0 <= k < |r| ==>
      r[k] == (if profiles[k].userId == user then profiles[k].(dailyInvitesUsed := n) else profiles[k])
  {
    seq(|profiles|, k requires 0 <= k < |profiles| =>
      if profiles[k].userId == user then profiles[k].(dailyInvitesUsed := n) else profiles[k])
  }

  /** The invite and match tables, the id counter and the result of a call. */
  datatype InviteTables = InviteTables(invites: seq<Invite>, matches: seq<Match>, nextId: nat, result: InviteResult)

  /** What `sendInvite(from, to)` does to the tables. With a unique invite
      `to -> from` (of any status) that invite becomes accepted, exactly one
      match row holding the two users in string order is added, and the
      call reports that match; no `from -> to` invite is inserted.
      Otherwise exactly one pending invite `from -> to` is added, no match
      is created and the call reports no match. */
  function InviteStep(invites: seq<Invite>, matches: seq<Match>, nextId: nat, from: UserId, to: UserId, now: int)
    : (t: InviteTables)
    ensures t.nextId == nextId + 1
    ensures t.result.isMatch <==> SingleReciprocal(invites, from, to).Some?
    ensures t.result.isMatch <==> t.result.matchRow.Some?
    ensures t.result.isMatch ==>
      (&& t.invites == SetStatus(invites, SingleReciprocal(invites, from, to).value.id, Accepted)
       && |t.matches| == |matches| + 1 && t.matches[..|matches|] == matches
       && t.result.matchRow == Some(t.matches[|matches|])
       && t.matches[|matches|].id == nextId && t.matches[|matches|].createdAt == now
       && {t.matches[|matches|].user1, t.matches[|matches|].user2} == {from, to}
       && (from != to ==> StrLess(t.matches[|matches|].user1, t.matches[|matches|].user2)))
    ensures !t.result.isMatch ==>
      (&& t.invites == invites + [Invite(nextId, from, to, Pending, now)]
       && t.matches == matches)
  {
    match SingleReciprocal(invites, from, to)
    case Some(inv) =>
      var pair := OrderedPair(from, to);
      var m := Match(nextId, pair.0, pair.1, now);
      InviteTables(SetStatus(invites, inv.id, Accepted), matches + [m], nextId + 1, InviteResult(true, Some(m)))
    case None =>
      InviteTables(invites + [Invite(nextId, from, to, Pending, now)], matches, nextId + 1, InviteResult(false, None))
  }

  /** `r` is what `fetchRandomProfile` returns over these tables for this
      draw: the weighted walk's pick among the eligible profiles, in table
      order. */
  ghost predicate Fetches(profiles: seq<Profile>, invites: seq<Invite>, matches: seq<Match>,
                          skips: seq<Skip>, blocks: seq<Block>, userId: UserId, current: Profile,
                          prefs: Option<Preferences>, draw: int, r: Option<Profile>)
  {
    var e := Eligible(profiles, OppositeGender(current.gender), current.university,
                      ExclusionSet(userId, invites, matches, skips, blocks));
    PickedBy(e, Weights(e, current, prefs), draw, r)
  }

  /** The invite ids are distinct and below the id counter. */
  ghost predicate InviteIdsFresh(invites: seq<Invite>, nextId: nat)
  {
    (forall k :: 0 <= k < |invites| ==> invites[k].id < nextId)
    && (forall k, l :: 0 <= k < l < |invites| ==> invites[k].id != invites[l].id)
  }

  ghost predicate MatchIdsFresh(matches: seq<Match>, nextId: nat)
  {
    (forall k :: 0 <= k < |matches| ==> matches[k].id < nextId)
    && (forall k, l :: 0 <= k < l < |matches| ==> matches[k].id != matches[l].id)
  }

  ghost predicate MessageIdsFresh(messages: seq<Message>, nextId: nat)
  {
    (forall k :: 0 <= k < |messages| ==> messages[k].id < nextId)
    && (forall k, l :: 0 <= k < l < |messages| ==> messages[k].id != messages[l].id)
  }

  class Db {
    var profiles: seq<Profile>
    var invites: seq<Invite>
    var matches: seq<Match>
    var skips: seq<Skip>
    var blocks: seq<Block>
    var messages: seq<Message>
    var nextId: nat

    /** Row ids are unique per table and every match row is stored in
        canonical order. */
    ghost predicate Valid()
      reads this
    {
      && InviteIdsFresh(invites, nextId)
      && MatchIdsFresh(matches, nextId)
      && MessageIdsFresh(messages, nextId)
      && (forall k :: 0 <= k < |matches| ==> Canonical(matches[k]))
    }

    constructor (profiles: seq<Profile>, skips: seq<Skip>, blocks: seq<Block>)
      ensures Valid()
      ensures this.profiles == profiles && this.skips == skips && this.blocks == blocks
      ensures invites == [] && matches == [] && messages == [] && nextId == 0
    {
      this.profiles := profiles;
      this.skips := skips;
      this.blocks := blocks;
      invites := [];
      matches := [];
      messages := [];
      nextId := 0;
    }

    /** Insert a match row for the pair, ordered the way both call sites
        order it (`a < b ? a : b`, `a < b ? b : a`), and return it. */
    method InsertMatch(a: UserId, b: UserId, now: int) returns (m: Match)
      requires Valid()
      modifies this
      ensures Valid()
      ensures m == Match(old(nextId), OrderedPair(a, b).0, OrderedPair(a, b).1, now)
      ensures matches == old(matches) + [m] && nextId == old(nextId) + 1
      ensures invites == old(invites) && profiles == old(profiles) && skips == old(skips)
      ensures blocks == old(blocks) && messages == old(messages)
    {
      var pair := OrderedPair(a, b);
      m := Match(nextId, pair.0, pair.1, now);
      matches := matches + [m];
      nextId := nextId + 1;
    }

    method UpdateInviteStatus(id: nat, st: InviteStatus)
      requires Valid()
      modifies this
      ensures Valid()
      ensures invites == SetStatus(old(invites), id, st)
      ensures matches == old(matches) && profiles == old(profiles) && skips == old(skips)
      ensures blocks == old(blocks) && messages == old(messages) && nextId == old(nextId)
    {
      invites := SetStatus(invites, id, st);
    }

    method UpdateDailyInvites(user: UserId, n: int)
      requires Valid()
      modifies this
      ensures Valid()
      ensures profiles == SetDailyInvites(old(profiles), user, n)
      ensures invites == old(invites) && matches == old(matches) && skips == old(skips)
      ensures blocks == old(blocks) && messages == old(messages) && nextId == old(nextId)
    {
      profiles := SetDailyInvites(profiles, user, n);
    }

    method InsertMessage(matchId: nat, sender: UserId, content: string, now: int) returns (msg: Message)
      requires Valid()
      modifies this
      ensures Valid()
      ensures msg == Message(old(nextId), matchId, sender, content, now)
      ensures messages == old(messages) + [msg] && nextId == old(nextId) + 1
      ensures invites == old(invites) && matches == old(matches) && profiles == old(profiles)
      ensures skips == old(skips) && blocks == old(blocks)
    {
      msg := Message(nextId, matchId, sender, content, now);
      messages := messages + [msg];
      nextId := nextId + 1;
    }

    /** `sendInvite(from, to)`: the tables change as `InviteStep` says. */
    method SendInvite(from: UserId, to: UserId, now: int) returns (r: InviteResult)
      requires Valid()
      modifies this
      ensures Valid()
      ensures InviteTables(invites, matches, nextId, r) == InviteStep(old(invites), old(matches), old(nextId), from, to, now)
      ensures profiles == old(profiles) && skips == old(skips) && blocks == old(blocks) && messages == old(messages)
    {
      var existing := SingleReciprocal(invites, from, to);
      if existing.Some? {
        UpdateInviteStatus(existing.value.id, Accepted);
        var m := InsertMatch(from, to, now);
        return InviteResult(true, Some(m));
      }
      invites := invites + [Invite(nextId, from, to, Pending, now)];
      nextId := nextId + 1;
      r := InviteResult(false, None);
    }

    /** `skipProfile(user, skipped)`: one more skip row. */
    method SkipProfile(user: UserId, skipped: UserId)
      requires Valid()
      modifies this
      ensures Valid()
      ensures skips == old(skips) + [Skip(user, skipped)]
      ensures profiles == old(profiles) && invites == old(invites) && matches == old(matches)
      ensures blocks == old(blocks) && messages == old(messages) && nextId == old(nextId)
    {
      skips := skips + [Skip(user, skipped)];
    }

    /** `fetchRandomProfile`: any profile it returns has the opposite gender,
        the same university and an id outside the exclusion set (so it is
        never the user); it returns none exactly when no profile is
        eligible, and otherwise the candidate the weighted walk picks. */
    method FetchRandomProfile(userId: UserId, current: Profile, prefs: Option<Preferences>, draw: int)
      returns (r: Option<Profile>)
      ensures r.Some? ==> r.value in profiles
      ensures r.Some? ==> r.value.gender == OppositeGender(current.gender) && r.value.university == current.university
      ensures r.Some? ==> !Excluded(r.value.userId, userId, invites, matches, skips, blocks) && r.value.userId != userId
      ensures r.None? <==> forall p :: p in profiles && p.gender == OppositeGender(current.gender)
                                       && p.university == current.university
                                       ==> Excluded(p.userId, userId, invites, matches, skips, blocks)
      ensures Fetches(profiles, invites, matches, skips, blocks, userId, current, prefs, draw, r)
    {
      var ex := BuildExclusion(userId, invites, matches, skips, blocks);
      var eligible := Eligible(profiles, OppositeGender(current.gender), current.university, ex);
      if |eligible| == 0 {
        return None;
      }
      var weights := Weights(eligible, current, prefs);
      r := SelectCandidate(eligible, weights, draw);
    }
  }

  /** The mutual-match scenario: A invites B with nothing between them, then
      B invites A. The first call is no match; the second is a match with
      exactly one match row for the ordered pair, and A's invite accepted. */
  method MutualMatchScenario(a: UserId, b: UserId) returns (first: InviteResult, second: InviteResult,
                                                            invites: seq<Invite>, matches: seq<Match>)
    requires a != b
    ensures !first.isMatch && first.matchRow.None?
    ensures second.isMatch && second.matchRow.Some?
    ensures |matches| == 1 && matches[0] == second.matchRow.value
    ensures matches[0].user1 == OrderedPair(a, b).0 && matches[0].user2 == OrderedPair(a, b).1
    ensures StrLess(matches[0].user1, matches[0].user2)
    ensures invites == [Invite(0, a, b, Accepted, 0)]
  {
    var db := new Db([], [], []);
    first := db.SendInvite(a, b, 0);
    assert db.invites == [Invite(0, a, b, Pending, 0)];
    assert ReciprocalRows(db.invites, b, a) == [Invite(0, a, b, Pending, 0)];
    second := db.SendInvite(b, a, 1);
    invites := db.invites;
    matches := db.matches;
    assert {OrderedPair(b, a).0, OrderedPair(b, a).1} == {a, b};
    assert OrderedPair(b, a) == OrderedPair(a, b) by {
      StrLessTrichotomy(a, b);
    }
  }

  /** Inviting twice in a row with no reciprocal invite leaves two pending
      rows: the lookup only looks for the other direction. When the other
      user then invites back, `.single()` finds two reciprocal rows instead
      of one, so no match is made and a third pending invite is stored. */
  method DoubleInviteScenario(a: UserId, b: UserId) returns (first: InviteResult, second: InviteResult,
                                                             third: InviteResult,
                                                             invites: seq<Invite>, matches: seq<Match>)
    requires a != b
    ensures !first.isMatch && !second.isMatch && !third.isMatch
    ensures invites == [Invite(0, a, b, Pending, 0), Invite(1, a, b, Pending, 1), Invite(2, b, a, Pending, 2)]
    ensures matches == []
  {
    var db := new Db([], [], []);
    first := db.SendInvite(a, b, 0);
    assert db.invites == [Invite(0, a, b, Pending, 0)] && db.matches == [] && db.nextId == 1;
    assert ReciprocalRows(db.invites, a, b) == [];
    assert SingleReciprocal(db.invites, a, b).None?;
    second := db.SendInvite(a, b, 1);
    var inv := db.invites;
    assert inv == [Invite(0, a, b, Pending, 0), Invite(1, a, b, Pending, 1)] && db.matches == [] && db.nextId == 2;
    assert inv[1..] == [Invite(1, a, b, Pending, 1)];
    assert ReciprocalRows(inv[1..], b, a) == [Invite(1, a, b, Pending, 1)];
    assert |ReciprocalRows(inv, b, a)| == 2;
    assert SingleReciprocal(inv, b, a).None?;
    third := db.SendInvite(b, a, 2);
    invites := db.invites;
    matches := db.matches;
  }
}
