/** The profile form: the interest picker (at most five, toggled on and
    off) and the defaults the form writes for an empty prompt and an
    unknown university. */
module ProfileForm {

  import opened Schema
  import opened Text

  /** The most interests a profile may list. */
  const MaxInterests := 5

  predicate NoDuplicates(s: seq<string>)
  {
    forall i, j :: 0 <= i < j < |s| ==> s[i] != s[j]
  }

  /** `interests.filter(i => i !== interest)`. */
  function RemoveAll(s: seq<string>, x: string): (r: seq<string>)
    ensures forall y :: y in r <==> y in s && y != x
    ensures |r| <= |s|
    ensures x in s ==> |r| < |s|
  {
    if s == [] then []
    else (if s[0] != x then [s[0]] else []) + RemoveAll(s[1..], x)
  }

  /** The list after a toggle and whether the "maximum 5" error is shown. */
  datatype Toggle = Toggle(interests: seq<string>, tooMany: bool)

  /** `toggleInterest`: a listed interest is removed (every occurrence), an
      unlisted one is appended while the list has fewer than five entries,
      and otherwise the list stays as it is and the error is reported. */
  function ToggleInterest(interests: seq<string>, interest: string): (t: Toggle)
    ensures interest in interests ==>
      (&& !t.tooMany && interest !in t.interests
       && forall y :: y != interest ==> (y in t.interests <==> y in interests))
    ensures interest !in interests && |interests| < MaxInterests ==>
      !t.tooMany && t.interests == interests + [interest]
    ensures interest !in interests && |interests| >= MaxInterests ==>
      t.tooMany && t.interests == interests
  {
    if interest in interests then Toggle(RemoveAll(interests, interest), false)
    else if |interests| < MaxInterests then Toggle(interests + [interest], false)
    else Toggle(interests, true)
  }

  /** Removing from a list without duplicates keeps it without duplicates. */
  lemma {:induction false} RemoveAllNoDuplicates(s: seq<string>, x: string)
    requires NoDuplicates(s)
    ensures NoDuplicates(RemoveAll(s, x))
  {
    if s != [] {
      var tail := s[1..];
      assert NoDuplicates(tail) by {
        forall i, j | 0 <= i < j < |tail|
          ensures tail[i] != tail[j]
        {
          assert tail[i] == s[i + 1] && tail[j] == s[j + 1];
        }
      }
      RemoveAllNoDuplicates(tail, x);
      var rest := RemoveAll(tail, x);
      if s[0] != x {
        assert s[0] !in tail;
        assert s[0] !in rest;
        var r := [s[0]] + rest;
        forall i, j | 0 <= i < j < |r|
          ensures r[i] != r[j]
        {
          if i == 0 {
            assert r[j] == rest[j - 1];
          } else {
            assert r[i] == rest[i - 1] && r[j] == rest[j - 1];
          }
        }
      }
    }
  }

  /** The form's invariant: at most five interests, none listed twice.
      Every toggle keeps it. */
  lemma ToggleKeepsInvariant(interests: seq<string>, interest: string)
    requires |interests| <= MaxInterests && NoDuplicates(interests)
    ensures |ToggleInterest(interests, interest).interests| <= MaxInterests
    ensures NoDuplicates(ToggleInterest(interests, interest).interests)
  {
    if interest in interests {
      RemoveAllNoDuplicates(interests, interest);
    } else if |interests| < MaxInterests {
      var r := interests + [interest];
      forall i, j | 0 <= i < j < |r|
        ensures r[i] != r[j]
      {
        if j == |interests| {
          assert r[i] == interests[i];
        } else {
          assert r[i] == interests[i] && r[j] == interests[j];
        }
      }
    }
  }

  /** Removing an element that is not listed returns the list itself. */
  lemma {:induction false} RemoveAllAbsent(s: seq<string>, x: string)
    requires x !in s
    ensures RemoveAll(s, x) == s
  {
    if s != [] {
      RemoveAllAbsent(s[1..], x);
      assert [s[0]] + s[1..] == s;
    }
  }

  lemma {:induction false} RemoveAllAppend(s: seq<string>, x: string)
    requires x !in s
    ensures RemoveAll(s + [x], x) == s
  {
    if s == [] {
      assert RemoveAll([x], x) == [] + RemoveAll([], x);
    } else {
      assert (s + [x])[1..] == s[1..] + [x];
      RemoveAllAppend(s[1..], x);
      assert [s[0]] + s[1..] == s;
    }
  }

  /** Toggling an unlisted interest twice, with room for it, gives the
      original list back. */
  lemma ToggleTwiceRestores(interests: seq<string>, interest: string)
    requires interest !in interests && |interests| < MaxInterests
    ensures ToggleInterest(ToggleInterest(interests, interest).interests, interest).interests == interests
  {
    RemoveAllAppend(interests, interest);
  }

  /** `funPrompt || null`: the empty prompt is stored as null. */
  function StoredFunPrompt(funPrompt: string): (r: Option<string>)
    ensures r.None? <==> funPrompt == []
    ensures r.Some? ==> r.value == funPrompt
  {
    if funPrompt == [] then None else Some(funPrompt)
  }

  /** `university || 'Unknown'`, for a new profile. */
  function StoredUniversity(university: string): (r: string)
    ensures r != []
    ensures university != [] ==> r == university
    ensures university == [] ==> r == "Unknown"
  {
    if university == [] then "Unknown" else university
  }

  /** The university a new profile is stored with comes straight from
      `validateUniversityEmail(user.email || '')`: its label is never empty,
      so the `'Unknown'` default is never used. */
  lemma NewProfileUniversity(email: Option<string>)
    ensures var address := if email.Some? then email.value else "";
            StoredUniversity(ValidateUniversityEmail(address).university) == ValidateUniversityEmail(address).university
  {
  }
}
