/** Candidate selection of the matching library: the opposite-gender rule,
    the exclusion set, the eligibility filter, the preference weights and
    the weighted pick driven by a random draw.

    Weights are kept in half-units (the source's weights are multiples of
    0.5), so its 1 + 2 + 2/1 + 1.5 per shared interest becomes
    2 + 4 + 4/2 + 3. The draw is the source's `Math.random() * totalWeight`
    in half-units rounded up: the prefix sums are whole half-units, so
    "prefix >= draw" decides the same candidate either way. */
module Matching {

  import opened Schema

  /** `getOppositeGender`: the other of the two genders. */
  function OppositeGender(g: Gender): (r: Gender)
    ensures r != g
  {
    if g == Boy then Girl else Boy
  }

  /** Taking the opposite twice gives the gender back. */
  lemma OppositeGenderInvolution(g: Gender)
    ensures OppositeGender(OppositeGender(g)) == g
  {
  }

  // ---------------------------------------------------------------------
  // Exclusion set

  predicate Involves(i: Invite, user: UserId)
  {
    i.fromUser == user || i.toUser == user
  }

  predicate InMatch(m: Match, user: UserId)
  {
    m.user1 == user || m.user2 == user
  }

  /** The users never to be shown to `user` again: the user, both ends of
      every invite and every match touching the user (whatever the invite's
      status), every user the user skipped and every user the user blocked.
      A user who blocked `user` is not among them. */
  predicate Excluded(x: UserId, user: UserId, invites: seq<Invite>, matches: seq<Match>,
                     skips: seq<Skip>, blocks: seq<Block>)
  {
    || x == user
    || (exists i :: 0 <= i < |invites| && Involves(invites[i], user)
                    && (x == invites[i].fromUser || x == invites[i].toUser))
    || (exists i :: 0 <= i < |matches| && InMatch(matches[i], user)
                    && (x == matches[i].user1 || x == matches[i].user2))
    || (exists i :: 0 <= i < |skips| && skips[i].userId == user && skips[i].skippedUser == x)
    || (exists i :: 0 <= i < |blocks| && blocks[i].userId == user && blocks[i].blockedUser == x)
  }

  /** The exclusion set as a set of ids. */
  function ExclusionSet(user: UserId, invites: seq<Invite>, matches: seq<Match>,
                        skips: seq<Skip>, blocks: seq<Block>): (ex: set<UserId>)
    ensures forall x :: x in ex <==> Excluded(x, user, invites, matches, skips, blocks)
  {
    {user} + InviteEnds(user, invites) + MatchEnds(user, matches) + Skipped(user, skips) + Blocked(user, blocks)
  }

  function InviteEnds(user: UserId, invites: seq<Invite>): (s: set<UserId>)
    ensures forall x :: x in s <==> exists i :: 0 <= i < |invites| && Involves(invites[i], user)
                                                && (x == invites[i].fromUser || x == invites[i].toUser)
  {
    (set i | 0 <= i < |invites| && Involves(invites[i], user) :: invites[i].fromUser)
    + (set i | 0 <= i < |invites| && Involves(invites[i], user) :: invites[i].toUser)
  }

  function MatchEnds(user: UserId, matches: seq<Match>): (s: set<UserId>)
    ensures forall x :: x in s <==> exists i :: 0 <= i < |matches| && InMatch(matches[i], user)
                                                && (x == matches[i].user1 || x == matches[i].user2)
  {
    (set i | 0 <= i < |matches| && InMatch(matches[i], user) :: matches[i].user1)
    + (set i | 0 <= i < |matches| && InMatch(matches[i], user) :: matches[i].user2)
  }

  function Skipped(user: UserId, skips: seq<Skip>): (s: set<UserId>)
    ensures forall x :: x in s <==> exists i :: 0 <= i < |skips| && skips[i].userId == user && skips[i].skippedUser == x
  {
    set i | 0 <= i < |skips| && skips[i].userId == user :: skips[i].skippedUser
  }

  function Blocked(user: UserId, blocks: seq<Block>): (s: set<UserId>)
    ensures forall x :: x in s <==> exists i :: 0 <= i < |blocks| && blocks[i].userId == user && blocks[i].blockedUser == x
  {
    set i | 0 <= i < |blocks| && blocks[i].userId == user :: blocks[i].blockedUser
  }

  /** `excludeUserIds`, built by adding ids to a set one query row at a time. */
  method BuildExclusion(user: UserId, invites: seq<Invite>, matches: seq<Match>,
                        skips: seq<Skip>, blocks: seq<Block>) returns (ex: set<UserId>)
    ensures forall x :: x in ex <==> Excluded(x, user, invites, matches, skips, blocks)
    ensures ex == ExclusionSet(user, invites, matches, skips, blocks)
  {
    ex := {user};
    for k := 0 to |invites|
      invariant forall x :: x in ex <==> (x == user
        || (exists i :: 0 <= i < k && Involves(invites[i], user)
                        && (x == invites[i].fromUser || x == invites[i].toUser)))
    {
      if Involves(invites[k], user) {
        ex := ex + {invites[k].toUser};
        ex := ex + {invites[k].fromUser};
      }
    }
    ghost var afterInvites := ex;
    for k := 0 to |matches|
      invariant forall x :: x in ex <==> (x in afterInvites
        || (exists i :: 0 <= i < k && InMatch(matches[i], user)
                        && (x == matches[i].user1 || x == matches[i].user2)))
    {
      if InMatch(matches[k], user) {
        ex := ex + {matches[k].user1};
        ex := ex + {matches[k].user2};
      }
    }
    ghost var afterMatches := ex;
    for k := 0 to |skips|
      invariant forall x :: x in ex <==> (x in afterMatches
        || (exists i :: 0 <= i < k && skips[i].userId == user && skips[i].skippedUser == x))
    {
      if skips[k].userId == user {
        ex := ex + {skips[k].skippedUser};
      }
    }
    ghost var afterSkips := ex;
    for k := 0 to |blocks|
      invariant forall x :: x in ex <==> (x in afterSkips
        || (exists i :: 0 <= i < k && blocks[i].userId == user && blocks[i].blockedUser == x))
    {
      if blocks[k].userId == user {
        ex := ex + {blocks[k].blockedUser};
      }
    }
  }

  /** A skip recorded by `user` puts the skipped user into the next exclusion set. */
  lemma SkipExcludes(user: UserId, skipped: UserId, invites: seq<Invite>, matches: seq<Match>,
                     skips: seq<Skip>, blocks: seq<Block>)
    ensures Excluded(skipped, user, invites, matches, skips + [Skip(user, skipped)], blocks)
  {
    var s := skips + [Skip(user, skipped)];
    assert s[|skips|].userId == user && s[|skips|].skippedUser == skipped;
  }

  /** Recording more rows never shrinks the exclusion set. */
  lemma ExcludedGrows(x: UserId, user: UserId, invites: seq<Invite>, matches: seq<Match>,
                      skips: seq<Skip>, blocks: seq<Block>,
                      moreInvites: seq<Invite>, moreMatches: seq<Match>, moreSkips: seq<Skip>, moreBlocks: seq<Block>)
    requires Excluded(x, user, invites, matches, skips, blocks)
    ensures Excluded(x, user, invites + moreInvites, matches + moreMatches, skips + moreSkips, blocks + moreBlocks)
  {
    if exists i :: 0 <= i < |invites| && Involves(invites[i], user)
                   && (x == invites[i].fromUser || x == invites[i].toUser) {
      var i :| 0 <= i < |invites| && Involves(invites[i], user)
               && (x == invites[i].fromUser || x == invites[i].toUser);
      assert (invites + moreInvites)[i] == invites[i];
    } else if exists i :: 0 <= i < |matches| && InMatch(matches[i], user)
                          && (x == matches[i].user1 || x == matches[i].user2) {
      var i :| 0 <= i < |matches| && InMatch(matches[i], user)
               && (x == matches[i].user1 || x == matches[i].user2);
      assert (matches + moreMatches)[i] == matches[i];
    } else if exists i :: 0 <= i < |skips| && skips[i].userId == user && skips[i].skippedUser == x {
      var i :| 0 <= i < |skips| && skips[i].userId == user && skips[i].skippedUser == x;
      assert (skips + moreSkips)[i] == skips[i];
    } else if exists i :: 0 <= i < |blocks| && blocks[i].userId == user && blocks[i].blockedUser == x {
      var i :| 0 <= i < |blocks| && blocks[i].userId == user && blocks[i].blockedUser == x;
      assert (blocks + moreBlocks)[i] == blocks[i];
    }
  }

  // ---------------------------------------------------------------------
  // Eligible profiles

  /** The profiles query: opposite gender, same university, id outside the
      exclusion set, in table order. */
  function Eligible(profiles: seq<Profile>, gender: Gender, university: string, ex: set<UserId>): (r: seq<Profile>)
    ensures forall p :: p in r <==> p in profiles && p.gender == gender && p.university == university && p.userId !in ex
    ensures |r| <= |profiles|
  {
    if profiles == [] then []
    else
      var p := profiles[0];
      (if p.gender == gender && p.university == university && p.userId !in ex then [p] else [])
      + Eligible(profiles[1..], gender, university, ex)
  }

  // ---------------------------------------------------------------------
  // Weights

  /** `currentInterests.filter(i => profileInterests.includes(i)).length`:
      the entries of the current user's list that occur in the candidate's. */
  function SharedCount(mine: seq<string>, theirs: seq<string>): (n: nat)
    ensures n <= |mine|
    ensures (forall k :: 0 <= k < |mine| ==> mine[k] !in theirs) ==> n == 0
    ensures (forall k :: 0 <= k < |mine| ==> mine[k] in theirs) ==> n == |mine|
  {
    if mine == [] then 0
    else (if mine[0] in theirs then 1 else 0) + SharedCount(mine[1..], theirs)
  }

  /** How often `x` is listed. */
  function Count(s: seq<string>, x: string): nat
  {
    if s == [] then 0 else (if s[0] == x then 1 else 0) + Count(s[1..], x)
  }

  /** Giving the candidate one more interest `x` adds one shared entry per
      listing of `x` in the current user's list. */
  lemma {:induction false} SharedCountAddInterest(mine: seq<string>, theirs: seq<string>, x: string)
    requires x !in theirs
    ensures SharedCount(mine, theirs + [x]) == SharedCount(mine, theirs) + Count(mine, x)
  {
    if mine != [] {
      SharedCountAddInterest(mine[1..], theirs, x);
    }
  }

  lemma {:induction false} CountOfDistinct(s: seq<string>, x: string)
    requires x in s
    requires forall i, j :: 0 <= i < j < |s| ==> s[i] != s[j]
    ensures Count(s, x) == 1
  {
    if s[0] == x {
      CountAbsent(s[1..], x);
    } else {
      CountOfDistinct(s[1..], x);
    }
  }

  lemma {:induction false} CountAbsent(s: seq<string>, x: string)
    requires x !in s
    ensures Count(s, x) == 0
  {
    if s != [] {
      CountAbsent(s[1..], x);
    }
  }

  function YearBonus(candidate: Profile, current: Profile, prefs: Preferences): int
  {
    if prefs.preferredYear == Some(Same) && candidate.year == current.year then 4 else 0
  }

  function StreamBonus(candidate: Profile, current: Profile, prefs: Preferences): int
  {
    if prefs.preferredStream == Some(Same) && candidate.stream == current.stream then 4
    else if prefs.preferredStream == Some(Different) && candidate.stream != current.stream then 2
    else 0
  }

  /** A candidate's weight in half-units. It is at least 2 (weight 1) and at
      most 10 plus 3 per entry of the current user's interest list. */
  function HalfWeight(candidate: Profile, current: Profile, prefs: Option<Preferences>): (w: int)
    ensures 2 <= w <= 10 + 3 * |current.interests|
  {
    2
    + (match prefs
       case None => 0
       case Some(p) => YearBonus(candidate, current, p) + StreamBonus(candidate, current, p))
    + 3 * SharedCount(current.interests, candidate.interests)
  }

  /** Without preferences only the interest term is added to the base. */
  lemma NoPreferencesOnlyInterests(candidate: Profile, current: Profile)
    ensures HalfWeight(candidate, current, None) == 2 + 3 * SharedCount(current.interests, candidate.interests)
    ensures HalfWeight(candidate, current, Some(Preferences(None, None))) == HalfWeight(candidate, current, None)
    ensures HalfWeight(candidate, current, Some(Preferences(Some(Any), Some(Any)))) == HalfWeight(candidate, current, None)
  {
  }

  /** One more shared interest (the current user lists it once) raises the
      weight by exactly 1.5, i.e. 3 half-units. */
  lemma WeightPerSharedInterest(candidate: Profile, current: Profile, prefs: Option<Preferences>, x: string)
    requires x in current.interests && x !in candidate.interests
    requires forall i, j :: 0 <= i < j < |current.interests| ==> current.interests[i] != current.interests[j]
    ensures HalfWeight(candidate.(interests := candidate.interests + [x]), current, prefs)
         == HalfWeight(candidate, current, prefs) + 3
  {
    SharedCountAddInterest(current.interests, candidate.interests, x);
    CountOfDistinct(current.interests, x);
  }

  /** `eligibleProfiles.map(...)`: the weight of each candidate, in order. */
  function Weights(cands: seq<Profile>, current: Profile, prefs: Option<Preferences>): (ws: seq<int>)
    ensures |ws| == |cands|
    ensures forall i :: 0 <= i < |cands| ==> ws[i] == HalfWeight(cands[i], current, prefs) && ws[i] >= 2
  {
    seq(|cands|, i requires 0 <= i < |cands| => HalfWeight(cands[i], current, prefs))
  }

  // ---------------------------------------------------------------------
  // Weighted pick

  function Total(ws: seq<int>): int
    decreases |ws|
  {
    if ws == [] then 0 else Total(ws[..|ws| - 1]) + ws[|ws| - 1]
  }

  /** The running weight through candidate `i` reaches the draw. */
  predicate Hit(ws: seq<int>, draw: int, i: nat)
    requires i < |ws|
  {
    Total(ws[..i + 1]) >= draw
  }

  /** The candidate the weighted walk returns: the first one hit, or the
      first candidate when none is hit; none for an empty list. */
  predicate PickedBy(cands: seq<Profile>, ws: seq<int>, draw: int, pick: Option<Profile>)
    requires |ws| == |cands|
  {
    && (cands == [] <==> pick.None?)
    && (forall i :: 0 <= i < |cands| && Hit(ws, draw, i) && (forall j :: 0 <= j < i ==> !Hit(ws, draw, j))
          ==> pick == Some(cands[i]))
    && ((forall i :: 0 <= i < |cands| ==> !Hit(ws, draw, i)) && cands != [] ==> pick == Some(cands[0]))
  }

  /** The selection loop: `random -= weight` until it is at most 0, with the
      first profile as the fallback. */
  method SelectCandidate(cands: seq<Profile>, ws: seq<int>, draw: int) returns (pick: Option<Profile>)
    requires |ws| == |cands|
    ensures PickedBy(cands, ws, draw, pick)
    ensures pick.Some? ==> pick.value in cands
  {
    var random := draw;
    for i := 0 to |cands|
      invariant random == draw - Total(ws[..i])
      invariant forall j :: 0 <= j < i ==> !Hit(ws, draw, j)
    {
      assert ws[..i + 1][..i] == ws[..i];
      random := random - ws[i];
      if random <= 0 {
        assert Hit(ws, draw, i);
        pick := Some(cands[i]);
        assert forall k :: (0 <= k < |cands| && Hit(ws, draw, k) && (forall j :: 0 <= j < k ==> !Hit(ws, draw, j)))
                           ==> k == i;
        return;
      }
    }
    if cands == [] {
      return None;
    }
    return Some(cands[0]);
  }

  lemma {:induction false} TotalPrefixMonotone(ws: seq<int>, i: nat, j: nat)
    requires i <= j <= |ws|
    requires forall k :: 0 <= k < |ws| ==> ws[k] > 0
    ensures Total(ws[..i]) <= Total(ws[..j])
    ensures i < j ==> Total(ws[..i]) < Total(ws[..j])
    decreases j - i
  {
    if i < j {
      TotalPrefixMonotone(ws, i, j - 1);
      assert ws[..j][..j - 1] == ws[..j - 1];
    }
  }

  /** With positive weights a draw in `(Total(w0..w(i-1)), Total(w0..wi)]` hits
      candidate `i` first: each candidate owns an interval as wide as its weight. */
  lemma DrawIntervalPicks(cands: seq<Profile>, ws: seq<int>, draw: int, i: nat, pick: Option<Profile>)
    requires |ws| == |cands| && i < |cands|
    requires forall k :: 0 <= k < |ws| ==> ws[k] > 0
    requires Total(ws[..i]) < draw <= Total(ws[..i + 1])
    requires PickedBy(cands, ws, draw, pick)
    ensures pick == Some(cands[i])
  {
    forall j | 0 <= j < i ensures !Hit(ws, draw, j) {
      TotalPrefixMonotone(ws, j + 1, i);
    }
  }

  /** A draw of at most the total weight always hits some candidate, so the
      fallback is reached only by a draw above the total. */
  lemma DrawInRangeHits(ws: seq<int>, draw: int)
    requires ws != [] && draw <= Total(ws)
    ensures exists i :: 0 <= i < |ws| && Hit(ws, draw, i)
  {
    assert ws[..|ws|] == ws;
    assert Hit(ws, draw, |ws| - 1);
  }

  /** A draw of 0 picks the first candidate. */
  lemma ZeroDrawPicksFirst(cands: seq<Profile>, current: Profile, prefs: Option<Preferences>, pick: Option<Profile>)
    requires cands != []
    requires PickedBy(cands, Weights(cands, current, prefs), 0, pick)
    ensures pick == Some(cands[0])
  {
    var ws := Weights(cands, current, prefs);
    assert ws[..1] == [ws[0]];
    assert Hit(ws, 0, 0);
  }
}
