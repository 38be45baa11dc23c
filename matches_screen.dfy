/** The matches screen: the list of the user's matches with the partner's
    profile, the list of received pending invites with the sender's
    profile, and the accept and reject handlers that update the store and
    then both lists. */
module MatchesScreen {

  import opened Schema
  import opened Store

  datatype InviteWithSender = InviteWithSender(invite: Invite, sender: Profile)
  datatype MatchWithPartner = MatchWithPartner(row: Match, partner: Profile)

  /** The received pending invites, each with its sender's profile; an
      invite whose sender profile is not found is dropped. */
  function PendingFor(invites: seq<Invite>, profiles: seq<Profile>, user: UserId): (r: seq<InviteWithSender>)
    ensures forall x :: x in r ==>
      (&& x.invite in invites && x.invite.toUser == user && x.invite.status == Pending
       && FindProfile(profiles, x.invite.fromUser) == Some(x.sender))
    ensures forall i :: i in invites && i.toUser == user && i.status == Pending
                        && FindProfile(profiles, i.fromUser).Some? ==>
      InviteWithSender(i, FindProfile(profiles, i.fromUser).value) in r
  {
    if invites == [] then []
    else
      var i := invites[0];
      var sender := FindProfile(profiles, i.fromUser);
      (if i.toUser == user && i.status == Pending && sender.Some? then [InviteWithSender(i, sender.value)] else [])
      + PendingFor(invites[1..], profiles, user)
  }

  /** The user's matches, each with the partner's profile; a match whose
      partner profile is not found is dropped. The partner is the other
      participant whenever the two differ. */
  function MatchesFor(matches: seq<Match>, profiles: seq<Profile>, user: UserId): (r: seq<MatchWithPartner>)
    ensures forall x :: x in r ==>
      (&& x.row in matches && (x.row.user1 == user || x.row.user2 == user)
       && FindProfile(profiles, PartnerId(x.row, user)) == Some(x.partner)
       && (x.row.user1 != x.row.user2 ==> x.partner.userId != user))
    ensures forall m :: m in matches && (m.user1 == user || m.user2 == user)
                        && FindProfile(profiles, PartnerId(m, user)).Some? ==>
      MatchWithPartner(m, FindProfile(profiles, PartnerId(m, user)).value) in r
  {
    if matches == [] then []
    else
      var m := matches[0];
      var partner := FindProfile(profiles, PartnerId(m, user));
      (if (m.user1 == user || m.user2 == user) && partner.Some? then [MatchWithPartner(m, partner.value)] else [])
      + MatchesFor(matches[1..], profiles, user)
  }

  /** `prev.filter(i => i.id !== id)`. */
  function RemoveInvite(pending: seq<InviteWithSender>, id: nat): (r: seq<InviteWithSender>)
    ensures |r| <= |pending|
  {
    if pending == [] then []
    else (if pending[0].invite.id != id then [pending[0]] else []) + RemoveInvite(pending[1..], id)
  }

  /** The filter keeps exactly the entries with another id. */
  lemma {:induction false} RemoveInviteMembers(pending: seq<InviteWithSender>, id: nat)
    ensures forall x :: x in RemoveInvite(pending, id) <==> x in pending && x.invite.id != id
  {
    if pending != [] {
      RemoveInviteMembers(pending[1..], id);
      assert pending == [pending[0]] + pending[1..];
    }
  }

  /** With distinct ids, removing the entry at `k` by its id keeps every
      other entry, in its order. */
  lemma {:induction false} RemoveInviteSplice(pending: seq<InviteWithSender>, k: nat)
    requires k < |pending|
    requires DistinctIds(pending)
    ensures RemoveInvite(pending, pending[k].invite.id) == pending[..k] + pending[k + 1..]
  {
    var id := pending[k].invite.id;
    var tail := pending[1..];
    DistinctTail(pending);
    if k == 0 {
      RemoveInviteAbsent(tail, id);
      assert pending[..k] + pending[k + 1..] == tail;
    } else {
      assert tail[k - 1] == pending[k];
      RemoveInviteSplice(tail, k - 1);
      assert pending[0].invite.id != id;
      assert pending[..k] + pending[k + 1..] == [pending[0]] + (tail[..k - 1] + tail[k..]);
    }
  }

  /** No two entries share an invite id. */
  predicate DistinctIds(pending: seq<InviteWithSender>)
  {
    forall a, b :: 0 <= a < b < |pending| ==> pending[a].invite.id != pending[b].invite.id
  }

  /** Distinct ids stay distinct in the tail, and the head's id is not among them. */
  lemma DistinctTail(pending: seq<InviteWithSender>)
    requires pending != [] && DistinctIds(pending)
    ensures DistinctIds(pending[1..])
    ensures forall a :: 0 <= a < |pending| - 1 ==> pending[1..][a].invite.id != pending[0].invite.id
  {
    var tail := pending[1..];
    forall a, b | 0 <= a < b < |tail|
      ensures tail[a].invite.id != tail[b].invite.id
    {
      assert tail[a] == pending[a + 1] && tail[b] == pending[b + 1];
    }
    forall a | 0 <= a < |tail|
      ensures tail[a].invite.id != pending[0].invite.id
    {
      assert tail[a] == pending[a + 1];
    }
  }

  /** Removing an id no entry has changes nothing. */
  lemma {:induction false} RemoveInviteAbsent(pending: seq<InviteWithSender>, id: nat)
    requires forall a :: 0 <= a < |pending| ==> pending[a].invite.id != id
    ensures RemoveInvite(pending, id) == pending
  {
    if pending != [] {
      RemoveInviteAbsent(pending[1..], id);
      assert [pending[0]] + pending[1..] == pending;
    }
  }

  /** Answering an invite and dropping it from the list agrees with fetching
      the pending list again: the removed entries are exactly the ones the
      status change takes out of the received pending invites. */
  lemma {:induction false} AnswerAgreesWithRefetch(invites: seq<Invite>, profiles: seq<Profile>, user: UserId,
                                                   id: nat, st: InviteStatus)
    requires st != Pending
    ensures PendingFor(SetStatus(invites, id, st), profiles, user) == RemoveInvite(PendingFor(invites, profiles, user), id)
  {
    if invites != [] {
      var after := SetStatus(invites, id, st);
      assert after[1..] == SetStatus(invites[1..], id, st);
      AnswerAgreesWithRefetch(invites[1..], profiles, user, id, st);
      var i := invites[0];
      var sender := FindProfile(profiles, i.fromUser);
      var head := if i.toUser == user && i.status == Pending && sender.Some? then [InviteWithSender(i, sender.value)] else [];
      RemoveInviteConcat(head, PendingFor(invites[1..], profiles, user), id);
    }
  }

  lemma {:induction false} RemoveInviteConcat(a: seq<InviteWithSender>, b: seq<InviteWithSender>, id: nat)
    ensures RemoveInvite(a + b, id) == RemoveInvite(a, id) + RemoveInvite(b, id)
  {
    if a != [] {
      assert (a + b)[1..] == a[1..] + b;
      RemoveInviteConcat(a[1..], b, id);
    } else {
      assert a + b == b;
    }
  }

  class MatchesView {
    var user: Option<UserId>
    var pending: seq<InviteWithSender>
    var matches: seq<MatchWithPartner>

    constructor (user: Option<UserId>)
      ensures this.user == user && pending == [] && matches == []
    {
      this.user := user;
      pending := [];
      matches := [];
    }

    /** The fetch on entering the screen (without the store's
        newest-first ordering). */
    method Load(db: Db)
      modifies this
      ensures user == old(user)
      ensures user.None? ==> pending == old(pending) && matches == old(matches)
      ensures user.Some? ==>
        (&& matches == MatchesFor(db.matches, db.profiles, user.value)
         && pending == PendingFor(db.invites, db.profiles, user.value))
    {
      if user.None? {
        return;
      }
      matches := MatchesFor(db.matches, db.profiles, user.value);
      pending := PendingFor(db.invites, db.profiles, user.value);
    }

    /** `handleAcceptInvite`: the invite becomes accepted, one match row
        holding exactly the sender and the user in string order is
        inserted, the invite leaves the pending list and the new match,
        with the sender as partner, goes to the front of the matches list. */
    method AcceptInvite(db: Db, item: InviteWithSender, now: int)
      requires db.Valid()
      modifies this, db
      ensures db.Valid()
      ensures user == old(user)
      ensures user.None? ==> unchanged(this) && unchanged(db)
      ensures user.Some? ==>
        (&& db.invites == SetStatus(old(db.invites), item.invite.id, Accepted)
         && |db.matches| == |old(db.matches)| + 1 && db.matches[..|old(db.matches)|] == old(db.matches)
         && {db.matches[|old(db.matches)|].user1, db.matches[|old(db.matches)|].user2}
            == {item.invite.fromUser, user.value}
         && (item.invite.fromUser != user.value ==>
               StrLess(db.matches[|old(db.matches)|].user1, db.matches[|old(db.matches)|].user2))
         && pending == RemoveInvite(old(pending), item.invite.id)
         && matches == [MatchWithPartner(db.matches[|old(db.matches)|], item.sender)] + old(matches))
      ensures db.profiles == old(db.profiles) && db.skips == old(db.skips) && db.blocks == old(db.blocks)
      ensures db.messages == old(db.messages)
    {
      if user.None? {
        return;
      }
      db.UpdateInviteStatus(item.invite.id, Accepted);
      var m := db.InsertMatch(item.invite.fromUser, user.value, now);
      pending := RemoveInvite(pending, item.invite.id);
      matches := [MatchWithPartner(m, item.sender)] + matches;
    }

    /** `handleRejectInvite`: the invite becomes rejected, no match is
        created, and only that invite leaves the pending list. */
    method RejectInvite(db: Db, item: InviteWithSender)
      requires db.Valid()
      modifies this, db
      ensures db.Valid()
      ensures db.invites == SetStatus(old(db.invites), item.invite.id, Rejected)
      ensures db.matches == old(db.matches) && db.profiles == old(db.profiles) && db.skips == old(db.skips)
      ensures db.blocks == old(db.blocks) && db.messages == old(db.messages) && db.nextId == old(db.nextId)
      ensures pending == RemoveInvite(old(pending), item.invite.id)
      ensures matches == old(matches) && user == old(user)
    {
      db.UpdateInviteStatus(item.invite.id, Rejected);
      pending := RemoveInvite(pending, item.invite.id);
    }
  }
}
