/** The string helpers of the matching library: the abusive-word filter,
    the university extracted from an email address, and JavaScript's
    `trim`, which the chat screen applies before filtering. */
module Text {

  import opened Schema

  /** ASCII lower-casing, the case folding a `/…/i` pattern of ASCII
      letters applies (outside unicode mode no other character folds onto
      an ASCII letter). */
  function Lower(c: char): char
  {
    if 'A' <= c <= 'Z' then (c as int + 32) as char else c
  }

  /** ASCII upper-casing of one character. */
  function Upper(c: char): char
  {
    if 'a' <= c <= 'z' then (c as int - 32) as char else c
  }

  /** A word of the filter list: non-empty and made of lower-case letters. */
  predicate PlainWord(w: string)
  {
    |w| > 0 && forall k :: 0 <= k < |w| ==> 'a' <= w[k] <= 'z'
  }

  /** The word `w` occurs case-insensitively in `s` at position `i`. */
  predicate MatchAt(s: string, i: nat, w: string)
  {
    i + |w| <= |s| && forall k :: 0 <= k < |w| ==> Lower(s[i + k]) == w[k]
  }

  predicate Occurs(s: string, w: string)
  {
    exists i: nat :: i <= |s| && MatchAt(s, i, w)
  }

  const Mask: string := "***"

  /** `s.replace(new RegExp(w, 'gi'), '***')` for a literal word `w`:
      scanning from the left, every match is masked and the scan resumes
      after it. */
  function ReplaceAll(s: string, w: string): (r: string)
    requires |w| > 0
    ensures |w| >= 3 ==> |r| <= |s|
    decreases |s|
  {
    if |s| < |w| then s
    else if MatchAt(s, 0, w) then Mask + ReplaceAll(s[|w|..], w)
    else [s[0]] + ReplaceAll(s[1..], w)
  }

  lemma MatchAtShift(s: string, d: nat, i: nat, w: string)
    requires d <= |s|
    ensures MatchAt(s[d..], i, w) <==> MatchAt(s, i + d, w)
  {
    if MatchAt(s[d..], i, w) {
      forall k | 0 <= k < |w| ensures Lower(s[i + d + k]) == w[k] {
        assert s[d..][i + k] == s[i + d + k];
      }
    }
    if MatchAt(s, i + d, w) {
      forall k | 0 <= k < |w| ensures Lower(s[d..][i + k]) == w[k] {
        assert s[d..][i + k] == s[i + d + k];
      }
    }
  }

  /** The first `k` characters of the output are either copied unchanged
      from the input or contain a mask character. */
  lemma {:induction false} PrefixCopiedOrMasked(t: string, w: string, k: nat)
    requires |w| > 0
    requires k <= |ReplaceAll(t, w)|
    ensures (k <= |t| && ReplaceAll(t, w)[..k] == t[..k]) || '*' in ReplaceAll(t, w)[..k]
    decreases |t|
  {
    var out := ReplaceAll(t, w);
    if |t| < |w| || k == 0 {
    } else if MatchAt(t, 0, w) {
      assert out[0] == '*';
      assert out[..k][0] == '*';
    } else {
      var rest := ReplaceAll(t[1..], w);
      assert out == [t[0]] + rest;
      PrefixCopiedOrMasked(t[1..], w, k - 1);
      if k - 1 <= |t[1..]| && rest[..k - 1] == t[1..][..k - 1] {
        assert out[..k] == [t[0]] + rest[..k - 1];
        assert t[..k] == [t[0]] + t[1..][..k - 1];
      } else {
        assert '*' in rest[..k - 1];
        var j :| 0 <= j < k - 1 && rest[..k - 1][j] == '*';
        assert out[..k][j + 1] == '*';
      }
    }
  }

  /** No plain word occurs across or after a leading mask. */
  lemma MaskedHeadHidesNothing(rest: string, v: string)
    requires PlainWord(v) && !Occurs(rest, v)
    ensures !Occurs(Mask + rest, v)
  {
    var out := Mask + rest;
    forall i: nat | i <= |out| ensures !MatchAt(out, i, v) {
      if i < 3 {
        assert Lower(out[i + 0]) != v[0];
      } else {
        assert out[3..] == rest;
        MatchAtShift(out, 3, i - 3, v);
      }
    }
  }

  /** A copied first character that does not start `v` adds no occurrence of `v`. */
  lemma CopiedHeadHidesNothing(s: string, w: string, v: string)
    requires PlainWord(w) && PlainWord(v)
    requires |s| >= |w| && !MatchAt(s, 0, w) && !MatchAt(s, 0, v)
    requires !Occurs(ReplaceAll(s[1..], w), v)
    ensures !Occurs(ReplaceAll(s, w), v)
  {
    var out := ReplaceAll(s, w);
    var rest := ReplaceAll(s[1..], w);
    assert out == [s[0]] + rest;
    forall i: nat | i <= |out| ensures !MatchAt(out, i, v) {
      if i == 0 {
        if |v| <= |out| {
          HeadWindow(s, w, v);
        }
      } else {
        assert out[1..] == rest;
        MatchAtShift(out, 1, i - 1, v);
      }
    }
  }

  /** The window of the output at position 0 either is the input's window
      or holds a mask character, so `v` does not match there. */
  lemma HeadWindow(s: string, w: string, v: string)
    requires PlainWord(w) && PlainWord(v)
    requires |s| >= |w| && !MatchAt(s, 0, w) && !MatchAt(s, 0, v)
    requires |v| <= |ReplaceAll(s, w)|
    ensures !MatchAt(ReplaceAll(s, w), 0, v)
  {
    var out := ReplaceAll(s, w);
    var rest := ReplaceAll(s[1..], w);
    assert out == [s[0]] + rest;
    PrefixCopiedOrMasked(s[1..], w, |v| - 1);
    if |v| - 1 <= |s[1..]| && rest[..|v| - 1] == s[1..][..|v| - 1] {
      forall k | 0 <= k < |v| ensures out[k] == s[k] {
        if k > 0 {
          assert out[k] == rest[..|v| - 1][k - 1];
        }
      }
      CopiedWindow(s, out, v);
    } else {
      var j :| 0 <= j < |v| - 1 && rest[..|v| - 1][j] == '*';
      assert out[j + 1] == '*';
      MaskedWindow(out, v, j + 1);
    }
  }

  /** A window copied from the input does not match where the input does not. */
  lemma CopiedWindow(s: string, out: string, v: string)
    requires |v| <= |s| && |v| <= |out| && !MatchAt(s, 0, v)
    requires forall k :: 0 <= k < |v| ==> out[k] == s[k]
    ensures !MatchAt(out, 0, v)
  {
    var k :| 0 <= k < |v| && Lower(s[0 + k]) != v[k];
    assert Lower(out[0 + k]) != v[k];
  }

  /** A window holding a mask character matches no plain word. */
  lemma MaskedWindow(out: string, v: string, j: nat)
    requires PlainWord(v) && j < |v| <= |out| && out[j] == '*'
    ensures !MatchAt(out, 0, v)
  {
    assert Lower(out[0 + j]) != v[j];
  }

  /** An absent word stays absent in a suffix. */
  lemma AbsentInSuffix(s: string, d: nat, v: string)
    requires d <= |s| && !Occurs(s, v)
    ensures !Occurs(s[d..], v)
  {
    forall i: nat | i <= |s[d..]| && MatchAt(s[d..], i, v) ensures false {
      MatchAtShift(s, d, i, v);
    }
  }

  /** Masking `w` removes every occurrence of `w` and creates no occurrence
      of another plain word `v`. */
  lemma {:induction false} ReplaceAllLeavesNoOccurrence(s: string, w: string, v: string)
    requires PlainWord(w) && PlainWord(v)
    requires v == w || !Occurs(s, v)
    ensures !Occurs(ReplaceAll(s, w), v)
    decreases |s|
  {
    if |s| < |w| {
      assert ReplaceAll(s, w) == s;
      if v == w {
        assert forall i: nat :: !MatchAt(s, i, v);
      }
    } else if MatchAt(s, 0, w) {
      if v != w {
        AbsentInSuffix(s, |w|, v);
      }
      ReplaceAllLeavesNoOccurrence(s[|w|..], w, v);
      MaskedHeadHidesNothing(ReplaceAll(s[|w|..], w), v);
    } else {
      if v != w {
        AbsentInSuffix(s, 1, v);
        assert !MatchAt(s, 0, v);
      }
      ReplaceAllLeavesNoOccurrence(s[1..], w, v);
      CopiedHeadHidesNothing(s, w, v);
    }
  }

  /** A text in which `w` does not occur is returned unchanged. */
  lemma {:induction false} ReplaceAllUnchanged(s: string, w: string)
    requires |w| > 0 && !Occurs(s, w)
    ensures ReplaceAll(s, w) == s
    decreases |s|
  {
    if |s| >= |w| {
      assert !MatchAt(s, 0, w);
      forall i: nat | MatchAt(s[1..], i, w) ensures false {
        MatchAtShift(s, 1, i, w);
      }
      ReplaceAllUnchanged(s[1..], w);
      assert s == [s[0]] + s[1..];
    }
  }

  /** The filter's word list. */
  const AbusiveWords: seq<string> := ["spam", "hate", "abuse"]

  predicate PlainWords(ws: seq<string>)
  {
    forall j :: 0 <= j < |ws| ==> PlainWord(ws[j])
  }

  /** The words masked one after the other, in list order. */
  function MaskWords(s: string, ws: seq<string>): string
    requires PlainWords(ws)
    decreases |ws|
  {
    if ws == [] then s else ReplaceAll(MaskWords(s, ws[..|ws| - 1]), ws[|ws| - 1])
  }

  lemma {:induction false} MaskWordsKeepsAbsence(s: string, ws: seq<string>, v: string)
    requires PlainWords(ws) && PlainWord(v) && !Occurs(s, v)
    ensures !Occurs(MaskWords(s, ws), v)
    decreases |ws|
  {
    if ws != [] {
      MaskWordsKeepsAbsence(s, ws[..|ws| - 1], v);
      ReplaceAllLeavesNoOccurrence(MaskWords(s, ws[..|ws| - 1]), ws[|ws| - 1], v);
    }
  }

  /** After masking, none of the words occurs. */
  lemma {:induction false} MaskWordsRemovesAll(s: string, ws: seq<string>)
    requires PlainWords(ws)
    ensures forall j :: 0 <= j < |ws| ==> !Occurs(MaskWords(s, ws), ws[j])
    decreases |ws|
  {
    if ws != [] {
      var init := ws[..|ws| - 1];
      var last := ws[|ws| - 1];
      MaskWordsRemovesAll(s, init);
      forall j | 0 <= j < |ws| ensures !Occurs(MaskWords(s, ws), ws[j]) {
        if j < |ws| - 1 {
          assert ws[j] == init[j];
          ReplaceAllLeavesNoOccurrence(MaskWords(s, init), last, ws[j]);
        } else {
          ReplaceAllLeavesNoOccurrence(MaskWords(s, init), last, last);
        }
      }
    }
  }

  lemma {:induction false} MaskWordsUnchanged(s: string, ws: seq<string>)
    requires PlainWords(ws)
    requires forall j :: 0 <= j < |ws| ==> !Occurs(s, ws[j])
    ensures MaskWords(s, ws) == s
    decreases |ws|
  {
    if ws != [] {
      MaskWordsUnchanged(s, ws[..|ws| - 1]);
      ReplaceAllUnchanged(s, ws[|ws| - 1]);
    }
  }

  /** What `filterContent` returns: the three words masked in list order. */
  function Filtered(s: string): string
  {
    assert PlainWord(AbusiveWords[0]) && PlainWord(AbusiveWords[1]) && PlainWord(AbusiveWords[2]);
    MaskWords(s, AbusiveWords)
  }

  predicate HasAbusiveWord(s: string)
  {
    exists j :: 0 <= j < |AbusiveWords| && Occurs(s, AbusiveWords[j])
  }

  /** `filterContent`: `filtered` is reassigned once per word of the list.
      Afterwards no abusive word occurs in any letter case, and the text is
      returned unchanged exactly when it held none. */
  method FilterContent(content: string) returns (filtered: string)
    ensures filtered == Filtered(content)
    ensures !HasAbusiveWord(filtered)
    ensures filtered == content <==> !HasAbusiveWord(content)
  {
    assert PlainWord(AbusiveWords[0]) && PlainWord(AbusiveWords[1]) && PlainWord(AbusiveWords[2]);
    filtered := content;
    for i := 0 to |AbusiveWords|
      invariant filtered == MaskWords(content, AbusiveWords[..i])
    {
      assert AbusiveWords[..i + 1][..i] == AbusiveWords[..i];
      filtered := ReplaceAll(filtered, AbusiveWords[i]);
    }
    assert AbusiveWords[..|AbusiveWords|] == AbusiveWords;
    MaskWordsRemovesAll(content, AbusiveWords);
    if !HasAbusiveWord(content) {
      MaskWordsUnchanged(content, AbusiveWords);
    }
  }

  // ---------------------------------------------------------------------
  // JavaScript's String.prototype.trim

  /** WhiteSpace and LineTerminator code points of ECMAScript. */
  predicate IsJsSpace(c: char)
  {
    c == '\t' || c == '\n' || c == '\U{000B}' || c == '\U{000C}' || c == '\r' || c == ' '
    || c == '\U{00A0}' || c == '\U{1680}' || ('\U{2000}' <= c <= '\U{200A}')
    || c == '\U{2028}' || c == '\U{2029}' || c == '\U{202F}' || c == '\U{205F}'
    || c == '\U{3000}' || c == '\U{FEFF}'
  }

  function TrimStart(s: string): (r: string)
    ensures |r| <= |s| && r == s[|s| - |r|..]
    ensures r == [] || !IsJsSpace(r[0])
    ensures forall k :: 0 <= k < |s| - |r| ==> IsJsSpace(s[k])
  {
    if s != [] && IsJsSpace(s[0]) then TrimStart(s[1..]) else s
  }

  function TrimEnd(s: string): (r: string)
    ensures |r| <= |s| && r == s[..|r|]
    ensures r == [] || !IsJsSpace(r[|r| - 1])
    ensures forall k :: |r| <= k < |s| ==> IsJsSpace(s[k])
  {
    if s != [] && IsJsSpace(s[|s| - 1]) then TrimEnd(s[..|s| - 1]) else s
  }

  function Trim(s: string): string
  {
    TrimEnd(TrimStart(s))
  }

  /** `!text.trim()`: the trimmed text is empty exactly when every character
      is white space. */
  lemma TrimEmptyIffBlank(s: string)
    ensures Trim(s) == [] <==> forall k :: 0 <= k < |s| ==> IsJsSpace(s[k])
  {
    var t := TrimStart(s);
    if Trim(s) == [] {
      forall k | 0 <= k < |s| ensures IsJsSpace(s[k]) {
        if k >= |s| - |t| {
          assert s[k] == t[k - (|s| - |t|)];
        }
      }
    } else {
      var e := Trim(s);
      assert !IsJsSpace(e[0]);
      assert e[0] == t[0] == s[|s| - |t|];
    }
  }

  /** The trimmed text is a slice of the input with no white space at either end. */
  lemma TrimIsInnerSlice(s: string)
    ensures exists i, j :: 0 <= i <= j <= |s| && Trim(s) == s[i..j]
    ensures Trim(s) == [] || (!IsJsSpace(Trim(s)[0]) && !IsJsSpace(Trim(s)[|Trim(s)| - 1]))
  {
    var t := TrimStart(s);
    var e := TrimEnd(t);
    var i := |s| - |t|;
    assert t == s[i..];
    assert e == t[..|e|];
    assert e == s[i..i + |e|];
    if e != [] {
      assert e[0] == t[0];
    }
  }

  // ---------------------------------------------------------------------
  // validateUniversityEmail

  /** `s.split(c)[0]`: the text before the first `c`, or all of it. */
  function BeforeFirst(s: string, c: char): (r: string)
    ensures |r| <= |s| && r == s[..|r|]
    ensures c !in r
    ensures |r| < |s| ==> s[|r|] == c
  {
    if s == [] || s[0] == c then [] else [s[0]] + BeforeFirst(s[1..], c)
  }

  /** The text after the first `c`, if there is one. */
  function AfterFirst(s: string, c: char): (r: Option<string>)
    ensures r.None? <==> c !in s
    ensures r.Some? ==> s == BeforeFirst(s, c) + [c] + r.value
  {
    if s == [] then None
    else if s[0] == c then Some(s[1..])
    else match AfterFirst(s[1..], c)
      case None => None
      case Some(t) => Some(t)
  }

  /** `email.split('@')[1]`: the second `@`-separated segment, if any. */
  function Domain(email: string): Option<string>
  {
    match AfterFirst(email, '@')
    case None => None
    case Some(rest) => Some(BeforeFirst(rest, '@'))
  }

  const UnknownUniversity: string := "Unknown University"

  /** `domain?.split('.')[0] || 'Unknown University'`. */
  function UniversityLabel(email: string): string
  {
    match Domain(email)
    case None => UnknownUniversity
    case Some(d) => if BeforeFirst(d, '.') == [] then UnknownUniversity else BeforeFirst(d, '.')
  }

  /** `charAt(0).toUpperCase() + slice(1)`. */
  function Capitalize(s: string): (r: string)
    ensures |r| == |s|
  {
    if s == [] then [] else [Upper(s[0])] + s[1..]
  }

  datatype EmailCheck = EmailCheck(isValid: bool, university: string)

  function ValidateUniversityEmail(email: string): (r: EmailCheck)
    ensures r.isValid
    ensures r.university != []
  {
    EmailCheck(true, Capitalize(UniversityLabel(email)))
  }

  /** An address without `@` names no university. */
  lemma NoAtIsUnknown(email: string)
    requires '@' !in email
    ensures ValidateUniversityEmail(email).university == UnknownUniversity
  {
  }

  /** For `mailbox@site.rest` (a `mailbox` without `@`, a non-empty `site`
      without `@` or `.`), the university is `site` with its first letter
      upper-cased. */
  lemma LabelIsCapitalized(mailbox: string, site: string, rest: string)
    requires '@' !in mailbox && site != [] && '@' !in site && '.' !in site
    ensures ValidateUniversityEmail(mailbox + "@" + site + "." + rest).university
         == [Upper(site[0])] + site[1..]
  {
    var at := mailbox + "@";
    var tail := site + "." + rest;
    SegmentStartsWithSite(site, rest);
    SiteLabelIsCapitalized(mailbox, tail);
    AppendAssoc(at, site, ".");
    AppendAssoc(at, site + ".", rest);
  }

  lemma AppendAssoc(a: string, b: string, c: string)
    ensures a + b + c == a + (b + c)
  {
  }

  lemma CapitalizedLabel(email: string, site: string)
    requires site != [] && UniversityLabel(email) == site
    ensures ValidateUniversityEmail(email).university == [Upper(site[0])] + site[1..]
  {
  }

  /** For `mailbox@tail` with the first `@` after `mailbox`: when the text
      of `tail` up to the next `@` and then up to the first `.` is empty
      (`a@`, `a@.edu`, `a@@x`), the university is `Unknown University`. */
  lemma EmptyLabelIsUnknown(mailbox: string, tail: string)
    requires '@' !in mailbox && BeforeFirst(BeforeFirst(tail, '@'), '.') == []
    ensures ValidateUniversityEmail(mailbox + "@" + tail).university == UnknownUniversity
  {
    DomainAfterMailbox(mailbox, tail);
  }

  /** Otherwise (`a@mit`, `a@mit@x`, `a@mit.edu`) the university is that
      text with its first letter upper-cased. */
  lemma SiteLabelIsCapitalized(mailbox: string, tail: string)
    requires '@' !in mailbox && BeforeFirst(BeforeFirst(tail, '@'), '.') != []
    ensures var site := BeforeFirst(BeforeFirst(tail, '@'), '.');
            ValidateUniversityEmail(mailbox + "@" + tail).university == [Upper(site[0])] + site[1..]
  {
    var site := BeforeFirst(BeforeFirst(tail, '@'), '.');
    LabelOfTail(mailbox, tail, site);
    CapitalizedLabel(mailbox + "@" + tail, site);
  }

  /** The university of every address: `Unknown University` without an
      `@` or with an empty label, otherwise the label capitalized. */
  lemma UniversityOfAddress(email: string)
    ensures '@' !in email ==> ValidateUniversityEmail(email).university == UnknownUniversity
    ensures '@' in email ==>
      var site := BeforeFirst(BeforeFirst(AfterFirst(email, '@').value, '@'), '.');
      ValidateUniversityEmail(email).university
        == (if site == [] then UnknownUniversity else [Upper(site[0])] + site[1..])
  {
    if '@' in email {
      var mailbox := BeforeFirst(email, '@');
      var tail := AfterFirst(email, '@').value;
      assert email == mailbox + "@" + tail;
      if BeforeFirst(BeforeFirst(tail, '@'), '.') == [] {
        EmptyLabelIsUnknown(mailbox, tail);
      } else {
        SiteLabelIsCapitalized(mailbox, tail);
      }
    }
  }

  lemma LabelOfTail(mailbox: string, tail: string, site: string)
    requires '@' !in mailbox && site != [] && BeforeFirst(BeforeFirst(tail, '@'), '.') == site
    ensures UniversityLabel(mailbox + "@" + tail) == site
  {
    DomainAfterMailbox(mailbox, tail);
  }

  lemma DomainAfterMailbox(mailbox: string, tail: string)
    requires '@' !in mailbox
    ensures Domain(mailbox + "@" + tail) == Some(BeforeFirst(tail, '@'))
  {
    assert mailbox + "@" + tail == mailbox + ("@" + tail);
    AfterFirstSplit(mailbox, "@" + tail, '@');
    assert ("@" + tail)[1..] == tail;
  }

  lemma SegmentStartsWithSite(site: string, rest: string)
    requires '@' !in site && '.' !in site
    ensures BeforeFirst(BeforeFirst(site + "." + rest, '@'), '.') == site
  {
    BeforeFirstPrefix(site + ".", rest, '@');
    var d := site + "." + BeforeFirst(rest, '@');
    assert d == site + ("." + BeforeFirst(rest, '@'));
    BeforeFirstPrefix(site, "." + BeforeFirst(rest, '@'), '.');
  }

  /** Splitting past a prefix free of the separator. */
  lemma {:induction false} BeforeFirstPrefix(p: string, s: string, c: char)
    requires c !in p
    ensures BeforeFirst(p + s, c) == p + BeforeFirst(s, c)
    decreases |p|
  {
    if p != [] {
      assert (p + s)[1..] == p[1..] + s;
      BeforeFirstPrefix(p[1..], s, c);
      assert p == [p[0]] + p[1..];
    } else {
      assert p + s == s;
    }
  }

  lemma {:induction false} AfterFirstSplit(p: string, s: string, c: char)
    requires c !in p && s != [] && s[0] == c
    ensures AfterFirst(p + s, c) == Some(s[1..])
    decreases |p|
  {
    if p != [] {
      assert (p + s)[1..] == p[1..] + s;
      AfterFirstSplit(p[1..], s, c);
    } else {
      assert p + s == s;
    }
  }
}
