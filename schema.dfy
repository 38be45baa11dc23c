/** Rows of the store's tables and the small helpers every screen shares
    (the schema's enums, the optional wrapper, JavaScript's string order,
    the canonical match pair and the partner of a match). */
module Schema {

  datatype Option<+T> = None | Some(value: T)

  /** Opaque stable identifiers of users. */
  type UserId = string

  /** The four enums of the schema. */
  datatype Gender = Boy | Girl
  datatype Year = First | Second | Third | Fourth
  datatype PreferenceType = Same | Different | Any
  datatype InviteStatus = Pending | Accepted | Rejected

  /** A row of `profiles`. A null `daily_invites_used` is stored as 0 and a
      null `is_premium` as false: every use of either reads them through
      `|| 0` or a truthiness test, where null and 0 (false) coincide.
      A missing interest list is the empty list. */
  datatype Profile = Profile(
    userId: UserId,
    firstName: string,
    gender: Gender,
    year: Year,
    stream: string,
    university: string,
    funPrompt: Option<string>,
    interests: seq<string>,
    dailyInvitesUsed: int,
    isPremium: bool)

  /** A row of `user_preferences`; both columns are nullable. */
  datatype Preferences = Preferences(preferredYear: Option<PreferenceType>, preferredStream: Option<PreferenceType>)

  /** Row ids and creation times are given by the store. */
  datatype Invite = Invite(id: nat, fromUser: UserId, toUser: UserId, status: InviteStatus, createdAt: int)
  datatype Match = Match(id: nat, user1: UserId, user2: UserId, createdAt: int)
  datatype Skip = Skip(userId: UserId, skippedUser: UserId)
  datatype Block = Block(userId: UserId, blockedUser: UserId)
  datatype Message = Message(id: nat, matchId: nat, senderId: UserId, content: string, createdAt: int)

  /** String `a < b` as lexicographic order of code points. JavaScript
      compares UTF-16 code units instead; the two orders agree on strings
      of characters up to U+FFFF, in particular on the ASCII uuid ids the
      match pair is ordered by. */
  predicate StrLess(a: string, b: string)
    decreases |a|
  {
    if a == [] then b != []
    else if b == [] then false
    else if a[0] < b[0] then true
    else a[0] == b[0] && StrLess(a[1..], b[1..])
  }

  lemma {:induction false} StrLessIrreflexive(a: string)
    ensures !StrLess(a, a)
    decreases |a|
  {
    if a != [] {
      StrLessIrreflexive(a[1..]);
    }
  }

  /** For two strings exactly one of `a < b`, `b < a` and `a == b` holds. */
  lemma {:induction false} StrLessTrichotomy(a: string, b: string)
    ensures StrLess(a, b) || StrLess(b, a) || a == b
    ensures !(StrLess(a, b) && StrLess(b, a))
    decreases |a|
  {
    if a != [] && b != [] && a[0] == b[0] {
      StrLessTrichotomy(a[1..], b[1..]);
      if a[1..] == b[1..] {
        assert a == [a[0]] + a[1..] && b == [b[0]] + b[1..];
      }
    }
  }

  /** The pair a match row is inserted with: `user1_id: a < b ? a : b`,
      `user2_id: a < b ? b : a`. It holds exactly the two users, the first
      never above the second, and strictly below it when they differ. */
  function OrderedPair(a: UserId, b: UserId): (p: (UserId, UserId))
    ensures {p.0, p.1} == {a, b}
    ensures !StrLess(p.1, p.0)
    ensures a != b ==> StrLess(p.0, p.1)
  {
    StrLessTrichotomy(a, b);
    if StrLess(a, b) then (a, b) else (b, a)
  }

  /** A match row is canonical when its first user is not above its second. */
  predicate Canonical(m: Match)
  {
    !StrLess(m.user2, m.user1)
  }

  /** `match.user1_id === user.id ? match.user2_id : match.user1_id`. */
  function PartnerId(m: Match, user: UserId): (p: UserId)
    ensures p == m.user1 || p == m.user2
    ensures (m.user1 == user || m.user2 == user) && m.user1 != m.user2 ==> p != user
    ensures m.user1 != user && m.user2 != user ==> p == m.user1
  {
    if m.user1 == user then m.user2 else m.user1
  }

  /** A profile query with `.single()`: the unique row for the user, or none
      when there are zero or several. */
  function FindProfile(profiles: seq<Profile>, user: UserId): (r: Option<Profile>)
    ensures r.Some? ==> r.value in profiles && r.value.userId == user
    ensures r.None? <==> |ProfilesOf(profiles, user)| != 1
  {
    var rows := ProfilesOf(profiles, user);
    if |rows| == 1 then Some(rows[0]) else None
  }

  /** The rows of the table for one user, in table order. */
  function ProfilesOf(profiles: seq<Profile>, user: UserId): (rows: seq<Profile>)
    ensures forall p :: p in rows <==> p in profiles && p.userId == user
    ensures |rows| <= |profiles|
  {
    if profiles == [] then []
    else (if profiles[0].userId == user then [profiles[0]] else []) + ProfilesOf(profiles[1..], user)
  }

  /** While each user has at most one profile row, the lookup of a listed
      profile's user finds exactly that profile. */
  lemma FindProfileOfListed(profiles: seq<Profile>, p: Profile)
    requires p in profiles
    requires forall i, j :: 0 <= i < j < |profiles| ==> profiles[i].userId != profiles[j].userId
    ensures FindProfile(profiles, p.userId) == Some(p)
  {
    ProfilesOfUnique(profiles, p);
  }

  lemma {:induction false} ProfilesOfUnique(profiles: seq<Profile>, p: Profile)
    requires p in profiles
    requires forall i, j :: 0 <= i < j < |profiles| ==> profiles[i].userId != profiles[j].userId
    ensures ProfilesOf(profiles, p.userId) == [p]
  {
    if profiles[0] == p {
      assert forall q :: q in profiles[1..] ==> q.userId != p.userId;
      ProfilesOfNone(profiles[1..], p.userId);
    } else {
      assert profiles[0].userId != p.userId by {
        var k :| 0 <= k < |profiles| && profiles[k] == p;
        assert k > 0;
      }
      ProfilesOfUnique(profiles[1..], p);
    }
  }

  lemma {:induction false} ProfilesOfNone(profiles: seq<Profile>, user: UserId)
    requires forall q :: q in profiles ==> q.userId != user
    ensures ProfilesOf(profiles, user) == []
  {
    if profiles != [] {
      ProfilesOfNone(profiles[1..], user);
    }
  }
}
