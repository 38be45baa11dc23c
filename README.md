# Prom matching app: matching engine and screens, modelled in Dafny

This project models the core of a campus prom-matching web app.

- **Candidate selection.** A signed-in student is shown one profile at a time. The profile has the opposite gender and the same university. It is never someone already invited, matched, skipped or blocked. It is picked at random, weighted by the student's year and stream preferences and by shared interests.
- **Invite/match state machine.** Two students who invite each other become a match, stored once with the pair in string order.
- **Around the engine:**
  - the screens that call it (the daily quota of five free invites, accept/reject of received invites, skip);
  - the chat screens (message grouping, sending with the abusive-word filter, the chat list's ordering and labels);
  - the prom countdown;
  - the router's guard.

The store is modelled as in-memory tables in the class `Store.Db`. Row ids come from a counter of the store; they stand for the generated uuids. Creation times, "now" and the random draw are parameters. Times are integer milliseconds since the epoch.

Modules, one per part of the program:

- `Schema`: the rows, the enums, the string order `<` (code-point order, equal to JavaScript's on the ASCII ids compared), the ordered match pair, the partner of a match, and `.single()` profile lookups.
- `Text`: `filterContent`, `validateUniversityEmail`, and JavaScript's `trim`.
- `Matching`: `getOppositeGender`, the exclusion set, eligibility, weights, and the weighted pick.
- `Store`: the tables, `sendInvite`, `skipProfile`, and `fetchRandomProfile`.
- `MatchesScreen`, `MatchScreen`, `ProfileForm`, `Chat`, `ChatList`, `EventCountdown` and `Routing`: one module per page or hook.

Weights are kept in half-units, because the program's weights are multiples of 0.5:

- The program's `1 + 2 + (2 or 1) + 1.5·shared` becomes `2 + 4 + (4 or 2) + 3·shared`.
- The program draws `Math.random() * totalWeight`. Here the draw is that value in half-units, rounded up.
- Because every running total is a whole number of half-units, "running total ≥ draw" picks the same candidate as the program's `random -= weight; if (random <= 0)`.

Where the specification of the system and the code differ, the model follows the code:

- **Fallback.** The selection falls back to the *first* eligible profile, not the last (`src/lib/supabase-helpers.ts:106`). With a draw inside the total the fallback is never reached (`Matching.DrawInRangeHits`).
- **No new invite on a match.** On a match, `sendInvite` updates the reciprocal invite and inserts the match. It does not insert an accepted `from → to` invite.
- **Blocks.** Blocks exclude only the users the current user blocked, not the users who blocked them.
- **Shared interests.** These are counted as the entries of the current user's list that occur in the candidate's list, not as a set intersection.
- **Reciprocal lookup.** The lookup uses `.single()`: it finds the reciprocal invite only when there is exactly one, of any status, including a rejected one.

Observations the proofs bring out:

- The `'Unknown'` university default of the profile form is never used, because `validateUniversityEmail` never returns an empty label (`ProfileForm.NewProfileUniversity`).
- The guard's own loading spinner is never reached through the router, which shows its own spinner first (`Routing.GuardSpinnerUnreached`).
- A "You: " prefix in a chat preview cannot be told apart from a message that itself starts with "You: " (`ChatList.PreviewPrefix`).
- Two invites in the same direction are possible (`Store.DoubleInviteScenario`). After that, the other user's invite finds no single reciprocal row and does not produce a match.

## Model

| member | source | states |
|---|---|---|
| `Schema.StrLessTrichotomy` | src/lib/supabase-helpers.ts:129-130 | the code-point string order, which equals JavaScript's `<` on the ASCII uuid ids compared, is a strict total order: exactly one of `a < b`, `b < a`, `a == b` |
| `Schema.OrderedPair` | src/lib/supabase-helpers.ts:129-130 | the match pair holds exactly the two users, the first not above the second, strictly below when they differ |
| `Schema.PartnerId` | src/pages/MatchesPage.tsx:47 | the partner is a participant; for a participant of a match between two different users it is the other one; for a non-participant it is `user1` |
| `Schema.FindProfile` | src/pages/MatchesPage.tsx:48-52 | `.single()`: a found profile is a row of the table for that user; none exactly when the user has zero or several rows |
| `Schema.FindProfileOfListed` | src/pages/MatchesPage.tsx:48-52 | with one row per user, the lookup of a listed profile's user returns that profile |
| `Matching.OppositeGender` | src/lib/supabase-helpers.ts:7-9 | the result is never the input |
| `Matching.OppositeGenderInvolution` | src/lib/supabase-helpers.ts:7-9 | applying it twice gives the input back |
| `Matching.ExclusionSet` | src/lib/supabase-helpers.ts:26-44 | membership iff `Excluded`: the user, both ends of every invite and match touching the user (any status), every user the user skipped or blocked |
| `Matching.BuildExclusion` | src/lib/supabase-helpers.ts:26-44 | the set built by the `forEach`/`add` loops is exactly `ExclusionSet`, with the same membership iff |
| `Matching.SkipExcludes` | src/lib/supabase-helpers.ts:41 | after recording a skip, the skipped user is excluded |
| `Matching.ExcludedGrows` | src/lib/supabase-helpers.ts:26-44 | adding rows to any table never takes a user out of the exclusion set |
| `Matching.Eligible` | src/lib/supabase-helpers.ts:47-57 | a profile is eligible iff it is a row with the given gender and university and an id outside the exclusion set |
| `Matching.SharedCount` | src/lib/supabase-helpers.ts:87-89 | at most the length of the current user's list; 0 with nothing in common, the full length when every entry is shared |
| `Matching.SharedCountAddInterest` | src/lib/supabase-helpers.ts:88 | giving the candidate a new interest adds one shared entry per listing of it in the current user's list |
| `Matching.HalfWeight` | src/lib/supabase-helpers.ts:69-92 | every weight is at least 1 (2 half-units) and at most 5 plus 1.5 per entry of the current user's list |
| `Matching.NoPreferencesOnlyInterests` | src/lib/supabase-helpers.ts:72-89 | with null preferences (or null/"any" columns) only the base and the interest term remain |
| `Matching.WeightPerSharedInterest` | src/lib/supabase-helpers.ts:86-89 | one more shared interest raises the weight by exactly 1.5 |
| `Matching.Weights` | src/lib/supabase-helpers.ts:69-92 | one weight per candidate, in order, each at least 1 |
| `Matching.SelectCandidate` | src/lib/supabase-helpers.ts:94-106 | the walk returns the first candidate whose running total reaches the draw, else the first candidate, none for an empty list; the result is a candidate |
| `Matching.TotalPrefixMonotone` | src/lib/supabase-helpers.ts:95-99 | with positive weights the running total strictly increases |
| `Matching.DrawIntervalPicks` | src/lib/supabase-helpers.ts:96-102 | a draw in `(total before i, total through i]` picks candidate `i`: each candidate owns an interval as wide as its weight |
| `Matching.DrawInRangeHits` | src/lib/supabase-helpers.ts:95-106 | a draw not above the total weight always hits, so the fallback needs a draw outside the range |
| `Matching.ZeroDrawPicksFirst` | src/lib/supabase-helpers.ts:96-102 | a draw of 0 picks the first candidate |
| `Text.ReplaceAll` | src/lib/supabase-helpers.ts:195-196 | replacing a word of three or more letters by `***` never lengthens the text |
| `Text.ReplaceAllLeavesNoOccurrence` | src/lib/supabase-helpers.ts:195-196 | after a case-insensitive global replace the word no longer occurs in any letter case, and a word that did not occur does not appear |
| `Text.ReplaceAllUnchanged` | src/lib/supabase-helpers.ts:195-196 | text without the word (in any letter case) is returned unchanged |
| `Text.MaskWordsRemovesAll` | src/lib/supabase-helpers.ts:194-197 | after replacing every word of a list, none of them occurs |
| `Text.MaskWordsUnchanged` | src/lib/supabase-helpers.ts:194-197 | text holding none of the words is unchanged |
| `Text.FilterContent` | src/lib/supabase-helpers.ts:190-199 | the loop computes the three replacements in order; no `spam`, `hate` or `abuse` remains in any letter case; the text is unchanged exactly when it held none |
| `Text.TrimStart` | src/pages/ChatPage.tsx:106 | drops exactly the leading ECMAScript white space |
| `Text.TrimEnd` | src/pages/ChatPage.tsx:106 | drops exactly the trailing ECMAScript white space |
| `Text.TrimEmptyIffBlank` | src/pages/ChatPage.tsx:106 | the trimmed text is empty iff every character is white space |
| `Text.TrimIsInnerSlice` | src/pages/ChatPage.tsx:110 | the trimmed text is a slice of the input with only white space cut at both ends |
| `Text.BeforeFirst` | src/lib/supabase-helpers.ts:180-181 | `split(c)[0]`: the longest prefix without `c`, followed by `c` when shorter than the text |
| `Text.AfterFirst` | src/lib/supabase-helpers.ts:180 | none iff the text has no `c`; otherwise the text is the part before, `c`, and the result |
| `Text.Capitalize` | src/lib/supabase-helpers.ts:185 | keeps the length |
| `Text.ValidateUniversityEmail` | src/lib/supabase-helpers.ts:162-187 | always valid; the university is never empty (the cases are `Text.UniversityOfAddress`) |
| `Text.NoAtIsUnknown` | src/lib/supabase-helpers.ts:180-181 | an address without `@` gives `Unknown University` |
| `Text.LabelIsCapitalized` | src/lib/supabase-helpers.ts:180-186 | for `mailbox@site.rest` the university is `site` with its first letter upper-cased |
| `Text.EmptyLabelIsUnknown` | src/lib/supabase-helpers.ts:180-181 | an address whose label (after the first `@`, up to the next `@`, then up to the first `.`) is empty, such as `a@`, `a@.edu` or `a@@x`, gives `Unknown University` |
| `Text.SiteLabelIsCapitalized` | src/lib/supabase-helpers.ts:180-186 | a non-empty label, followed by a `.` or not (`a@mit`, `a@mit@x`), is the university with its first letter upper-cased |
| `Text.UniversityOfAddress` | src/lib/supabase-helpers.ts:162-187 | for every address: `Unknown University` without `@` or with an empty label, otherwise the capitalized label |
| `Store.ReciprocalRows` | src/lib/supabase-helpers.ts:111-115 | exactly the invites from `to` to `from`, of any status |
| `Store.SingleReciprocal` | src/lib/supabase-helpers.ts:111-116 | a found invite goes `to → from`; none exactly when there are zero or several |
| `Store.SetStatus` | src/lib/supabase-helpers.ts:120-123 | the rows with the id get the status; every other field and every other row is unchanged |
| `Store.SetDailyInvites` | src/pages/MatchPage.tsx:64-67 | the user's rows get the new counter, every other row is unchanged |
| `Store.InviteStep` | src/lib/supabase-helpers.ts:109-146 | with a single reciprocal invite: it becomes accepted, exactly one match holding the two users in string order is appended and reported, no invite is added; otherwise exactly one pending `from → to` invite is appended, no match, `isMatch` false |
| `Store.Db.SendInvite` | src/lib/supabase-helpers.ts:109-154 | invites, matches, the id counter and the result are `InviteStep` of the old tables; ids stay unique and matches canonical |
| `Store.Db.InsertMatch` | src/pages/MatchesPage.tsx:101-108 | appends one match with the ordered pair and a fresh id |
| `Store.Db.UpdateInviteStatus` | src/pages/MatchesPage.tsx:95-98 | the invite table becomes `SetStatus` of the old one, nothing else changes |
| `Store.Db.UpdateDailyInvites` | src/pages/MatchPage.tsx:64-67 | the profile table becomes `SetDailyInvites` of the old one, nothing else changes |
| `Store.Db.InsertMessage` | src/pages/ChatPage.tsx:112-118 | appends one message with a fresh id, nothing else changes |
| `Store.Db.SkipProfile` | src/lib/supabase-helpers.ts:156-160 | appends one skip row, nothing else changes |
| `Store.Db.FetchRandomProfile` | src/lib/supabase-helpers.ts:11-107 | a returned profile is a row of the opposite gender and the same university and is not excluded (so never the user); none iff every such row is excluded; otherwise the weighted walk's pick (`Fetches`) |
| `Store.MutualMatchScenario` | src/lib/supabase-helpers.ts:109-145 | A invites B, then B invites A: first no match, then a match; exactly one match row for the ordered pair; A's invite accepted |
| `Store.DoubleInviteScenario` | src/lib/supabase-helpers.ts:111-145 | inviting twice in the same direction stores two pending invites and no match; the other user's invite back then finds two reciprocal rows, so `.single()` gives none, no match is made and a third pending invite is stored |
| `MatchesScreen.PendingFor` | src/pages/MatchesPage.tsx:60-78 | only invites to the user, pending, with the sender's profile found; every such invite is listed |
| `MatchesScreen.MatchesFor` | src/pages/MatchesPage.tsx:38-56 | only the user's matches with the partner's profile found, the partner not being the user; every such match is listed |
| `MatchesScreen.RemoveInviteMembers` | src/pages/MatchesPage.tsx:113 | the filter keeps exactly the entries with another id |
| `MatchesScreen.RemoveInviteSplice` | src/pages/MatchesPage.tsx:113 | with distinct ids, removing an entry's id leaves the other entries in their order |
| `MatchesScreen.RemoveInviteAbsent` | src/pages/MatchesPage.tsx:113 | removing an id no entry has changes nothing |
| `MatchesScreen.AnswerAgreesWithRefetch` | src/pages/MatchesPage.tsx:95-129 | after accepting or rejecting, the locally filtered list equals a fresh fetch of the pending list |
| `MatchesScreen.MatchesView.Load` | src/pages/MatchesPage.tsx:31-88 | without a user nothing changes; otherwise the lists are `MatchesFor` and `PendingFor` of the store |
| `MatchesScreen.MatchesView.AcceptInvite` | src/pages/MatchesPage.tsx:90-120 | without a user nothing changes; otherwise the invite becomes accepted, one match with exactly {sender, user} in string order is appended, the invite leaves the pending list and the match is prepended with the sender as partner |
| `MatchesScreen.MatchesView.RejectInvite` | src/pages/MatchesPage.tsx:122-134 | the invite becomes rejected, no match is created, only that invite leaves the pending list |
| `MatchScreen.RemainingInvites` | src/pages/MatchPage.tsx:27-28 | 0 without a profile, otherwise `5 - used` |
| `MatchScreen.CanSendInvite` | src/pages/MatchPage.tsx:29 | holds iff there is a profile and it is premium or has used fewer than five invites |
| `MatchScreen.QuotaAfterInvites` | src/pages/MatchPage.tsx:27-29 | a free user has exactly `5 - used` invites: after `k` more the gate is open iff `used + k < 5` |
| `MatchScreen.MatchView.LoadNext` | src/pages/MatchPage.tsx:31-44 | nothing without a user or profile; otherwise the candidate is `fetchRandomProfile`'s result, with its gender, university and exclusion facts |
| `MatchScreen.MatchView.HandleInvite` | src/pages/MatchPage.tsx:52-90 | with the gate closed nothing in the store changes and the quota notice is shown; otherwise a free user's counter rises by one (a premium user's stays), the tables follow `InviteStep`, the dialog opens only on a match, and the next candidate is loaded |
| `MatchScreen.MatchView.SpendAndSend` | src/pages/MatchPage.tsx:62-82 | the counter step, `sendInvite`, the profile refresh and the dialog/notice choice |
| `MatchScreen.MatchView.HandleSkip` | src/pages/MatchPage.tsx:92-104 | records (user, skipped); the skipped user is then excluded, and the next candidate is never the skipped user |
| `ProfileForm.RemoveAll` | src/pages/ProfilePage.tsx:196 | keeps exactly the entries different from the interest; shorter when it was listed |
| `ProfileForm.ToggleInterest` | src/pages/ProfilePage.tsx:194-202 | a listed interest is removed (every occurrence, the rest kept); an unlisted one is appended below five; at five or more the list is unchanged and the error is reported |
| `ProfileForm.RemoveAllNoDuplicates` | src/pages/ProfilePage.tsx:196 | removing keeps a list free of duplicates |
| `ProfileForm.ToggleKeepsInvariant` | src/pages/ProfilePage.tsx:194-202 | at most five interests and no duplicates is preserved by every toggle |
| `ProfileForm.RemoveAllAppend` | src/pages/ProfilePage.tsx:196-198 | removing an interest just appended to a list without it gives the list back |
| `ProfileForm.ToggleTwiceRestores` | src/pages/ProfilePage.tsx:195-198 | toggling an unlisted interest twice, with room, returns the original list |
| `ProfileForm.StoredFunPrompt` | src/pages/ProfilePage.tsx:99 | the empty prompt is stored as null, any other as itself |
| `ProfileForm.StoredUniversity` | src/pages/ProfilePage.tsx:116 | never empty; an empty university becomes `Unknown` |
| `ProfileForm.NewProfileUniversity` | src/pages/ProfilePage.tsx:85-116 | the stored university is exactly `validateUniversityEmail`'s, so the `Unknown` default is never taken |
| `Chat.IsOwn` | src/pages/ChatPage.tsx:213 | holds iff there is a user and the message's sender is that user; a row the user sends is their own and not the partner's (`HandleSend`, `PostMessage`), and the chat list marks exactly these (`ChatList.PreviewAgreesWithChat`) |
| `Chat.GroupMessages` | src/pages/ChatPage.tsx:147-157 | concatenating the groups gives the messages back in order; no group is empty; every message is under its date; neighbouring groups have different dates |
| `Chat.AddMessage` | src/pages/ChatPage.tsx:150-156 | one step of the pass extends the concatenation by the message, keeps the grouping well formed and leaves the message's date last |
| `Chat.ExtendLastKeeps` | src/pages/ChatPage.tsx:152-153 | pushing onto the last group keeps the grouping well formed and extends the concatenation by the message |
| `Chat.OpenGroupKeeps` | src/pages/ChatPage.tsx:154-155 | opening a new group keeps the grouping well formed and extends the concatenation by the message |
| `Chat.FindMatch` | src/pages/ChatPage.tsx:38-42 | `.single()` on the match id |
| `Chat.MessagesOf` | src/pages/ChatPage.tsx:61-67 | exactly the messages of the match |
| `Chat.ChatView.Load` | src/pages/ChatPage.tsx:31-73 | without a match id or user nothing changes; a missing match is reported; otherwise the partner is the profile of the participant who is not the user, and the messages are the match's |
| `Chat.ChatView.OnRealtimeInsert` | src/pages/ChatPage.tsx:88-91 | the new message is appended and earlier messages are unchanged |
| `Chat.ChatView.HandleSend` | src/pages/ChatPage.tsx:104-127 | blank input, a missing id or user, or a refused insert change nothing; otherwise one message with `filterContent(trim(input))` is stored (no abusive word left; the trimmed text itself when it had none), shown as the user's own and not the partner's, and the input is cleared |
| `Chat.ChatView.PostMessage` | src/pages/ChatPage.tsx:110-118 | one row with the filtered text and a fresh id is appended; no abusive word is left in it, clean text is stored as it is, and the row is own exactly for the sender |
| `ChatList.PreviewFor` | src/pages/ChatsListPage.tsx:45-57 | the partner, when found, is the profile of the participant who is not the user |
| `ChatList.WithPartner` | src/pages/ChatsListPage.tsx:63 | keeps exactly the previews with a partner |
| `ChatList.Insert` | src/pages/ChatsListPage.tsx:64-68 | inserting into a list sorted most recent first keeps it sorted and adds exactly the element |
| `ChatList.SortByActivity` | src/pages/ChatsListPage.tsx:64-68 | sorted by non-increasing activity time and a permutation of the input |
| `ChatList.SortedChats` | src/pages/ChatsListPage.tsx:62-68 | exactly the previews with a partner, as a permutation, most recently active first |
| `ChatList.FormatTime` | src/pages/ChatsListPage.tsx:81-95 | time of day iff less than a day ago; "Yesterday" iff one to two days; weekday iff in the future or two to seven days; month/day iff seven days or more |
| `ChatList.DaysAgoBounds` | src/pages/ChatsListPage.tsx:84-85 | `Math.floor(diff / 86400000)` days bracket the difference |
| `ChatList.PreviewText` | src/pages/ChatsListPage.tsx:137-139 | the placeholder without a message; otherwise ends with the content, and is "You: " + content iff the user sent it |
| `ChatList.PreviewAgreesWithChat` | src/pages/ChatsListPage.tsx:137-139 | the preview is "You: " + content iff the chat screen's `isOwn` holds for the message, and the bare content otherwise |
| `ChatList.PreviewPrefix` | src/pages/ChatsListPage.tsx:137-139 | the line starts with "You: " iff the user sent it or the content starts with "You: " |
| `EventCountdown.CalculateTimeLeft` | src/hooks/useEventSettings.tsx:35-51 | zeros when the difference is not positive; otherwise days ≥ 0, hours < 24, minutes and seconds < 60, and they add up to the whole seconds of the difference |
| `EventCountdown.SplitSeconds` | src/hooks/useEventSettings.tsx:45-50 | the day, hour and minute divisions equal dividing the whole seconds, and the four parts recompose them |
| `EventCountdown.TimeLeftFor` | src/hooks/useEventSettings.tsx:32-53 | no countdown without settings; zeros once the prom date is not ahead |
| `EventCountdown.IsEventActive` | src/hooks/useEventSettings.tsx:59-60 | holds iff `is_active` is true and the prom date is after now |
| `EventCountdown.ActiveCountdownRuns` | src/hooks/useEventSettings.tsx:40-60 | an active event at least a second ahead shows a non-zero countdown; a past prom date shows zeros |
| `Routing.ProtectedRoute` | src/App.tsx:18-33 | spinner iff loading; to `/auth` iff no user; to `/profile` iff a user without profile away from `/profile`; children iff a user with a profile or on `/profile` |
| `Routing.Route` | src/App.tsx:35-58 | spinner iff loading; `/` goes to `/match`, `/profile` or `/auth`; `/auth` goes to `/match` or `/profile` for a signed-in user and shows the sign-in page otherwise; unknown paths show not-found |
| `Routing.ProtectedPagesNeedProfile` | src/App.tsx:29-32 | a signed-in page is shown only to a signed-in user, and only with a profile unless it is the profile page |
| `Routing.RedirectsSettle` | src/App.tsx:29-54 | the target of any redirect shows a page: at most one redirect before a page |
| `Routing.GuardSpinnerUnreached` | src/App.tsx:21-44 | once loading is over the router never shows a spinner |

## Left out

- Store access is not modelled as I/O. The tables are in memory and every query and write succeeds. So the `error → null` path of `fetchRandomProfile`, the `matchError` of `sendInvite`, the screens' `toast` error branches and `console.error` are not modelled. `HandleSend` takes the store's acceptance as a parameter because its input box is only cleared on success.
- The quota write inside `sendInvite` (`src/lib/supabase-helpers.ts:147-151`) is not modelled: it depends on the client library's shape, and the real increment is the screen's.
- The `eduPatterns` check (`src/lib/supabase-helpers.ts:164-177`) is not modelled: its result is never used.
- Concurrency is not modelled: each handler is one sequential step. This covers:
  - the non-atomic check-then-write of `sendInvite`;
  - `Promise.all`;
  - the realtime subscription itself (only its handler is modelled);
  - the auth listener;
  - the countdown's `setInterval`.
- The reload that follows a profile refresh is not modelled. Besides the reload `handleInvite` performs, React's effect on the changed profile reloads the candidate once more, with a fresh draw.
- `Math.random()` is a draw parameter. Floating-point rounding in the subtraction walk is not modelled (weights are exact in half-units).
- Ordering by `created_at` in the fetches of the matches, chat and chat-list screens is not modelled. The model keeps table order, and the chat list's last message is an input.
- Locale formatting (`toLocaleTimeString`, `toLocaleDateString`, `toDateString`) is not modelled. The chat list returns which label kind is shown. The chat screen's date key is a function parameter.
- Row ids are a counter, not uuids. Timestamps are integer milliseconds, not parsed ISO strings.
- `Schema.StrLess`: compares code points, while JavaScript's `<` compares UTF-16 code units; they differ only when a character above U+FFFF meets one in U+E000–U+FFFF, which the uuid ids compared never contain.
- `Text.Capitalize`: upper-cases ASCII letters only; JavaScript's `toUpperCase` also maps other letters (and some to two characters).
- `ChatList.SortByActivity`: states sortedness and permutation. It does not state that previews of equal activity keep their order, which `Array.prototype.sort` guarantees and the insertion used here also does; this is not proved.
- `Routing.ProtectedRoute`: the browser path is one of the router's paths, so spellings such as `/profile/` that the guard compares as different strings are not distinguished.
- Profile form submission (`handleSubmit`: avatar upload, update-or-insert of profile and preferences, navigation) is I/O. Only its two defaults are modelled.
- The authentication hook, the sign-in and landing pages, the layout, the profile cards, the match dialog, the countdown widget and the image cropper are presentational or plumbing. None of them is part of this model.
