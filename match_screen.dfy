/** The discovery screen: one candidate at a time, the daily invite quota
    of free users, and the invite and skip handlers. */
module MatchScreen {

  import opened Schema
  import opened Matching
  import opened Store

  /** `MAX_FREE_INVITES`. */
  const MaxFreeInvites := 5

  /** `remainingInvites`: what is left of the free quota, 0 without a
      profile. */
  function RemainingInvites(profile: Option<Profile>): (n: int)
    ensures profile.None? ==> n == 0
    ensures profile.Some? ==> n + profile.value.dailyInvitesUsed == MaxFreeInvites
  {
    if profile.Some? then MaxFreeInvites - profile.value.dailyInvitesUsed else 0
  }

  /** `canSendInvite`: premium users always may; free users while they have
      used fewer than five invites. */
  function CanSendInvite(profile: Option<Profile>): (b: bool)
    ensures b <==> profile.Some? && (profile.value.isPremium || profile.value.dailyInvitesUsed < MaxFreeInvites)
  {
    (profile.Some? && profile.value.isPremium) || RemainingInvites(profile) > 0
  }

  /** A free user who starts the day at `used` can send exactly
      `MaxFreeInvites - used` more invites: after `k` increments the gate is
      open iff `used + k < MaxFreeInvites`. */
  lemma QuotaAfterInvites(p: Profile, k: nat)
    requires !p.isPremium
    ensures CanSendInvite(Some(p.(dailyInvitesUsed := p.dailyInvitesUsed + k)))
            <==> p.dailyInvitesUsed + k < MaxFreeInvites
    ensures RemainingInvites(Some(p.(dailyInvitesUsed := p.dailyInvitesUsed + k))) == RemainingInvites(Some(p)) - k
  {
  }

  /** What the screen reports after an action. */
  datatype Notice = Quiet | NoInvitesLeft | InviteSent(name: string) | ItsAMatch

  /** The match dialog. */
  datatype MatchDialog = Closed | Open(matchedUserName: string, matchId: nat)

  /** What `handleInvite` leaves behind once the gate is passed, from the
      tables and the screen state before (`…0`) to those after: a free
      user's counter goes up by exactly one and the profile is read again,
      a premium user's is not touched; the invite and match tables follow
      `InviteStep`; the dialog opens only on a match, otherwise the invite
      is reported as sent. */
  ghost predicate Sent(profiles0: seq<Profile>, invites0: seq<Invite>, matches0: seq<Match>, nextId0: nat,
                       profile0: Option<Profile>, dialog0: MatchDialog,
                       u: UserId, me: Profile, target: Profile, now: int,
                       profiles: seq<Profile>, invites: seq<Invite>, matches: seq<Match>, nextId: nat,
                       profile: Option<Profile>, dialog: MatchDialog, notice: Notice)
  {
    var t := InviteStep(invites0, matches0, nextId0, u, target.userId, now);
    && profiles == (if me.isPremium then profiles0 else SetDailyInvites(profiles0, u, me.dailyInvitesUsed + 1))
    && profile == (if me.isPremium then profile0 else FindProfile(profiles, u))
    && invites == t.invites && matches == t.matches && nextId == t.nextId
    && dialog == (if t.result.isMatch && t.result.matchRow.Some? then Open(target.firstName, t.result.matchRow.value.id) else dialog0)
    && notice == (if t.result.isMatch && t.result.matchRow.Some? then ItsAMatch else InviteSent(target.firstName))
  }

  class MatchView {
    /** The signed-in user, their profile and preferences. */
    var user: Option<UserId>
    var profile: Option<Profile>
    var prefs: Option<Preferences>
    /** The candidate on screen. */
    var current: Option<Profile>
    var dialog: MatchDialog
    var notice: Notice

    constructor (user: Option<UserId>, profile: Option<Profile>, prefs: Option<Preferences>)
      ensures this.user == user && this.profile == profile && this.prefs == prefs
      ensures current.None? && dialog == Closed && notice == Quiet
    {
      this.user := user;
      this.profile := profile;
      this.prefs := prefs;
      current := None;
      dialog := Closed;
      notice := Quiet;
    }

    /** `loadNextProfile`, with the profile it was created with: nothing
        without a user or a profile, otherwise the next candidate is what
        `fetchRandomProfile` returns. */
    method LoadNext(db: Db, draw: int, me: Option<Profile>)
      modifies this
      ensures user == old(user) && profile == old(profile) && prefs == old(prefs)
      ensures dialog == old(dialog) && notice == old(notice)
      ensures user.None? || me.None? ==> current == old(current)
      ensures user.Some? && me.Some? ==>
        (&& Fetches(db.profiles, db.invites, db.matches, db.skips, db.blocks, user.value, me.value, prefs, draw, current)
         && (current.Some? ==>
               (&& current.value in db.profiles
                && current.value.gender == OppositeGender(me.value.gender)
                && current.value.university == me.value.university
                && !Excluded(current.value.userId, user.value, db.invites, db.matches, db.skips, db.blocks))))
    {
      if user.None? || me.None? {
        return;
      }
      current := db.FetchRandomProfile(user.value, me.value, prefs, draw);
    }

    /** `handleInvite`. With no user or candidate, or with the quota used
        up, nothing in the store changes (and the quota case is reported).
        Otherwise a free user's counter goes up by exactly one before
        `sendInvite` runs and the profile is read again; a premium user's
        counter is not touched. The dialog opens only on a match; otherwise
        the invite is reported as sent. Then the next candidate is loaded. */
    method HandleInvite(db: Db, now: int, draw: int)
      requires db.Valid()
      modifies this, db
      ensures db.Valid()
      ensures user == old(user) && prefs == old(prefs)
      ensures old(user).None? || old(current).None? || !CanSendInvite(old(profile)) ==>
        (&& unchanged(db) && current == old(current) && profile == old(profile) && dialog == old(dialog)
         && notice == (if !CanSendInvite(old(profile)) then NoInvitesLeft else old(notice)))
      ensures old(user).Some? && old(current).Some? && CanSendInvite(old(profile)) ==>
        (&& Sent(old(db.profiles), old(db.invites), old(db.matches), old(db.nextId), old(profile), old(dialog),
                 old(user).value, old(profile).value, old(current).value, now,
                 db.profiles, db.invites, db.matches, db.nextId, profile, dialog, notice)
         && Fetches(db.profiles, db.invites, db.matches, db.skips, db.blocks, old(user).value, old(profile).value,
                    prefs, draw, current))
      ensures db.skips == old(db.skips) && db.blocks == old(db.blocks) && db.messages == old(db.messages)
    {
      if user.None? || current.None? || !CanSendInvite(profile) {
        if !CanSendInvite(profile) {
          notice := NoInvitesLeft;
        }
        return;
      }
      var me := profile;
      SpendAndSend(db, user.value, me.value, current.value, now);
      LoadNext(db, draw, me);
    }

    /** The body of `handleInvite` past the gate: the counter, `sendInvite`,
        the profile refresh and the dialog. */
    method SpendAndSend(db: Db, u: UserId, me: Profile, target: Profile, now: int)
      requires db.Valid()
      modifies this, db
      ensures db.Valid()
      ensures user == old(user) && prefs == old(prefs) && current == old(current)
      ensures Sent(old(db.profiles), old(db.invites), old(db.matches), old(db.nextId), old(profile), old(dialog),
                   u, me, target, now, db.profiles, db.invites, db.matches, db.nextId, profile, dialog, notice)
      ensures db.skips == old(db.skips) && db.blocks == old(db.blocks) && db.messages == old(db.messages)
    {
      if !me.isPremium {
        db.UpdateDailyInvites(u, me.dailyInvitesUsed + 1);
        profile := FindProfile(db.profiles, u);
      }
      var r := db.SendInvite(u, target.userId, now);
      if r.isMatch && r.matchRow.Some? {
        dialog := Open(target.firstName, r.matchRow.value.id);
        notice := ItsAMatch;
      } else {
        notice := InviteSent(target.firstName);
      }
    }

    /** `handleSkip`: records the skip, then loads the next candidate, so the
        skipped user is in the next exclusion set and is never the next
        candidate. */
    method HandleSkip(db: Db, draw: int)
      requires db.Valid()
      modifies this, db
      ensures db.Valid()
      ensures user == old(user) && profile == old(profile) && prefs == old(prefs)
      ensures dialog == old(dialog) && notice == old(notice)
      ensures old(user).None? || old(current).None? ==> unchanged(db) && current == old(current)
      ensures old(user).Some? && old(current).Some? ==>
        (&& db.skips == old(db.skips) + [Skip(user.value, old(current).value.userId)]
         && db.invites == old(db.invites) && db.matches == old(db.matches) && db.profiles == old(db.profiles)
         && db.blocks == old(db.blocks) && db.messages == old(db.messages) && db.nextId == old(db.nextId)
         && Excluded(old(current).value.userId, user.value, db.invites, db.matches, db.skips, db.blocks))
      ensures old(user).Some? && old(current).Some? && profile.Some? ==>
        (&& Fetches(db.profiles, db.invites, db.matches, db.skips, db.blocks, user.value, profile.value, prefs, draw, current)
         && (current.Some? ==> current.value.userId != old(current).value.userId))
    {
      if user.None? || current.None? {
        return;
      }
      var skipped := current.value.userId;
      db.SkipProfile(user.value, skipped);
      SkipExcludes(user.value, skipped, db.invites, db.matches, old(db.skips), db.blocks);
      LoadNext(db, draw, profile);
    }
  }
}
