# Word Memo review engine, modelled in Dafny

Word Memo is a browser flashcard trainer. All its logic is in `app.js`. It
reads a word list ("term<TAB>meaning" or "term - meaning", one per line) into
cards. Each card has a level from 0 to 5 and a due time. The page shows the
first due card. The "I forgot" and "I knew" buttons reschedule that card:
back to level 0 and due in ten minutes, or one level up and due after 1, 3,
7, 14 or 30 days. The page also tracks the session: every id answered, and
the ids whose last answer was "I forgot". It keeps a per-day count of
"I forgot" answers in local storage. The count feeds a "Top 10 forgot
(today)" mode, which restricts the queue to the most-forgotten cards of the
day.

The project models this review engine:

- `seqs.dfy`: the `Option` type for JavaScript's `undefined`/`-1` results, a
  bounded prefix (`Take`), and the set of a list's elements.
- `text.dfy` (module `Text`): the string operations `parseText` relies on.
  These are `trim`, `includes`/`indexOf`, destructuring the first two fields
  of `split(sep)`, and `split(/\r?\n/)`. Strings are sequences of
  characters.
- `cards.dfy` (module `Cards`): the card record, `nextDue`, the level
  updates of the two answer buttons, and `cards.find` by id.
- `parse.dfy` (module `Parse`): `parseText`.
- `forgot_stats.dfy` (module `ForgotStats`): `bumpForgotCount` and
  `getTop10ForgotIdsToday`. The ranking is a stable descending sort,
  restricted to existing cards and cut at ten.
- `queue.dfy` (module `Queue`): `getQueue`. It also models the
  "set `due = now` on each id's card" loops of the repeat and Top-10
  buttons.
- `app.dfy` (module `WordMemo`): the page state as a class `App`. Its
  fields are the module-level variables of `app.js`. Its methods are
  `autoCloseTop10IfFinished`, `updateUI` and every button handler.

Time is a parameter `now`, in milliseconds, read once per handler. The date
key `todayKey()` is a parameter `today`. The `confirm` answer, the chosen
file's text and the fetched default list are parameters. `freshId(k)` stands
for the random id drawn for the `k`-th parsed card.

In `app.js`, "Repeat unknown" makes the unknown cards due now in the
ordinary queue; it is not a separate mode. "Repeat all (session)" likewise
makes the session's cards due now; it does not replay the answered ids in
order.

## Model

| member | source | states |
|---|---|---|
| `Text.Trim` | app.js:106 | The trimmed line neither starts nor ends with whitespace, is no longer than the line, and is empty exactly when the line is all whitespace. Which text it keeps is stated by `Text.TrimInfix`. |
| `Text.TrimInfix` | app.js:106 | `trim()` keeps an infix of the line, and everything it removes before and after that infix is whitespace. |
| `Text.TrimIdempotent` | app.js:121-122 | Trimming a field that is already trimmed changes nothing. |
| `Text.NotIncludedInTrim` | app.js:111-114 | Trimming cannot create a separator that was not in the text. |
| `Text.IndexOf` | app.js:111-113 | The position found is the first occurrence at or after the start; with no result, the pattern occurs nowhere. |
| `Text.FirstField` | app.js:112 | The first field is a prefix of the text; the separator starts nowhere inside it, and it ends at the end of the text or where the separator starts. |
| `Text.FirstTwoFields` | app.js:112-114 | `[term, meaning] = line.split(sep)`: the line starts with `term`, the separator and `meaning`; the separator starts nowhere inside either field; `meaning` ends at the end of the line or where the separator starts again, so later fields are dropped. Neither field holds the separator. |
| `Text.FirstTwoFieldsUnique` | app.js:112-114 | Any pair of fields that sits in the line that way is the result: the fields are fixed by where the separator occurs. |
| `Text.FirstTwoFieldsOf` | app.js:112-114 | In `a + sep + b + t`, with the separator starting nowhere inside `a` or `b` and `t` empty or starting with the separator, the two fields are `a` and `b`. |
| `Text.FirstTwoFieldsOfJoined` | app.js:112 | On "a<TAB>b" with no tab in `a` or `b`, the two fields are exactly `a` and `b`. |
| `Text.SplitOn` | app.js:105 | Splitting gives at least one piece, and no piece holds the separator. |
| `Text.JoinSplit` | app.js:105 | Joining the pieces of a split with the separator gives back the text. |
| `Text.SplitJoin` | app.js:105 | Splitting pieces joined by a separator they lack gives back the pieces. |
| `Text.DropCarriageReturn` | app.js:105 | A piece that ends in `\r` loses exactly that `\r`, the optional `\r` of a line break; any other piece is unchanged. |
| `Text.Lines` | app.js:105 | `split(/\r?\n/)` gives at least one line, and no line holds a line feed. Which lines come back is stated by the round trip `Text.LinesOfBreaksJoined`. |
| `Text.BreaksAsJoin` | app.js:105 | Joining lines with any mix of "\n" and "\r\n" is joining them with "\n" after a `\r` is appended to every line followed by "\r\n". |
| `Text.LinesOfBreaksJoined` | app.js:105 | Lines without line feeds, joined by any mix of "\n" and "\r\n" (no line before a bare "\n" ending in `\r`), split back into the same lines: the `\r` of each "\r\n" is consumed. |
| `Text.LinesOfJoined` | app.js:105 | Lines without line feeds, joined by "\n" alone, split back into the same lines. |
| `Text.LinesOfCrLfJoined` | app.js:105 | Lines without line feeds, joined by "\r\n" alone, split back into the same lines. |
| `Cards.NextDue` | app.js:133-137 | The next due time is strictly after `now` and at most 30 days later; it is under a day away exactly for level 0. |
| `Cards.NextDueTable` | app.js:133-137 | Level 0 gives now + 600000 ms; levels 1 to 5 give now + 1, 3, 7, 14, 30 days of 86400000 ms. |
| `Cards.NextDueMonotonic` | app.js:133-137 | A higher level is always scheduled strictly later. |
| `Cards.Forgotten` | app.js:232-233 | "I forgot" keeps the card's id and text, sets the level to 0 and the due time to `nextDue(0, now)`, which is after `now` and within a day. |
| `Cards.Known` | app.js:246-247 | "I knew" keeps id and text, raises the level by one up to 5, and makes the card due at `nextDue` of the new level, after `now`; the level stays in 0..5. |
| `Cards.KnownRepeatedly` | app.js:246-247 | After `n` answers of "I knew", the level is min(level + n, 5) and stays in range; after five or more the card is due thirty days after the last answer. |
| `Cards.LevelsInRangeAppend` | app.js:324 | Appending cards with levels in 0..5 keeps every level in 0..5. |
| `Cards.FindCard` | app.js:262 | `cards.find` by id returns the first card with that id, or nothing when no card has it. |
| `Cards.FoundIffFirst` | app.js:262 | `cards.find` returns card `k` for its id exactly when no earlier card has that id. |
| `Cards.IdSet` | app.js:71 | An id is in the set of card ids exactly when `cards.find` finds it. |
| `Parse.ParseLine` | app.js:108-126 | A trimmed line gives an entry exactly when it holds a tab or " - ". The term is non-empty, both fields are trimmed and hold no tab, and a line split on " - " leaves no " - " in either field. |
| `Parse.ParseLineFields` | app.js:111-124 | The entry's term and meaning are the trimmed first two fields of the split on the tab when the line holds one, and on " - " otherwise. |
| `Parse.ParseTabLine` | app.js:111-112 | A line `a<TAB>b`, alone or followed by another tab and more text, gives term `trim(a)` and meaning `trim(b)`: a third field is dropped, and " - " in the line does not matter. |
| `Parse.ParseDashLine` | app.js:113-114 | A line `a - b` without a tab gives `trim(a)` and `trim(b)` when " - " occurs in neither and `a` does not end in " -". |
| `Parse.ParseDashExample` | app.js:113-114 | "a - - b" splits at its first " - ": term "a", meaning "- b". |
| `Parse.ParseLines` | app.js:104-127 | The method chain gives at most one entry per line, and every entry is well formed. |
| `Parse.KeptLines` | app.js:105-107 | The lines that survive are non-empty, trimmed, and hold a separator. |
| `Parse.KeptLinesMembers` | app.js:105-107 | A line survives, trimmed, exactly when its trim is non-empty and holds a separator; nothing else survives. |
| `Parse.ParseLinesPositional` | app.js:103-128 | The `k`-th entry is the parse of the `k`-th kept line. There are as many entries as kept lines; blank lines and lines with neither separator give nothing. |
| `Parse.ParseLinesAsKept` | app.js:104-127 | Parsing equals trimming and dropping the lines that give nothing, then running the line callback on each remaining line in order. |
| `Parse.ParseEntries` | app.js:103-128 | Every entry parsed from a text is well formed. |
| `Parse.NewCards` | app.js:119-125 | There is one card per entry, in order, with the entry's term and meaning, the `k`-th fresh id, level 0 and due at `now`. |
| `Parse.ParseText` | app.js:103-128 | Every parsed card's level is in 0..5. |
| `Parse.ParseFormatLine` | app.js:108-126 | A clean entry written as "term<TAB>meaning" parses back to itself. |
| `Parse.ParseFormatLines` | app.js:104-127 | Clean entries written one per line parse back to the same entries, in order. |
| `Parse.ParseFormattedText` | app.js:103-128 | A text of clean "term<TAB>meaning" lines parses to exactly those entries: the parser loses nothing it produces. |
| `ForgotStats.BumpDay` | app.js:56-57 | The id's count for the day rises by exactly one, starting at 1 when absent and appended last. Other ids' counts and the order of existing ids are unchanged. |
| `ForgotStats.BumpDayDistinct` | app.js:57 | Bumping keeps each id recorded at most once in the day. |
| `ForgotStats.BumpForgotCount` | app.js:53-59 | Today's record is created if absent and bumped. Other dates are unchanged. Stats with each id once per day stay that way. |
| `ForgotStats.InsertByCount` | app.js:68 | Inserting into a descending list keeps it descending and adds exactly the new entry. |
| `ForgotStats.InsertByCountStable` | app.js:68 | The inserted entry goes before all entries of equal count. |
| `ForgotStats.SortByCountDesc` | app.js:68 | The sort result is ordered by count, largest first, and is a permutation of the day's entries. |
| `ForgotStats.SortStable` | app.js:68 | For every count, entries of that count keep their recorded order. |
| `ForgotStats.ExistingEntries` | app.js:71-74 | Only entries of ids that still name a card are kept, and each is drawn from the input. |
| `ForgotStats.ExistingEntriesMultiset` | app.js:71-74 | An entry is kept exactly as often as it occurs, when its id exists; otherwise never. |
| `ForgotStats.TopForgottenShape` | app.js:61-78 | The ranking has at most ten entries, all of existing cards, with counts non-increasing. |
| `ForgotStats.RankedIdsExist` | app.js:71-77 | Every ranked id names a card, and the Top-10 set is non-empty exactly when the ranking is. |
| `ForgotStats.TopForgottenStable` | app.js:65-76 | Ties keep insertion order: for each count, the ranked entries of that count are the first entries of that count recorded today. |
| `ForgotStats.SortedExistingPermutation` | app.js:68-74 | Sorting before filtering keeps exactly the same entries of existing cards. |
| `ForgotStats.TopForgottenDrawn` | app.js:70-76 | The ranking holds min(n, 10) of the n entries of existing cards, drawn from them. |
| `ForgotStats.TopForgottenAll` | app.js:70-76 | With at most ten entries of existing cards, the ranking holds all of them. |
| `ForgotStats.TopForgottenLargest` | app.js:67-76 | A full ranking leaves out no entry of an existing card with a larger count than its last entry. |
| `ForgotStats.TopForgottenCounts` | app.js:64-76 | With each id once per day, each ranked entry carries that id's count for the day. |
| `ForgotStats.TopForgottenExample` | app.js:65-77 | Counts a:3, b:5, c:5, d:1, recorded in that order, rank as b, c, a, d. |
| `ForgotStats.TopForgottenIds` | app.js:61-78 | The method returns the ids of the ranking: sorted, restricted to existing cards, at most ten. |
| `ForgotStats.FirstExistingIds` | app.js:72-76 | The loop with its early `break` returns the ids of the first ten entries of existing cards. |
| `Queue.QueueIndices` | app.js:140-146 | The queue holds exactly the due cards, in `cards` order; in Top-10 mode, only those in the Top-10 set. |
| `Queue.QueueCards` | app.js:140-146 | A card is in the queue exactly when it is in `cards`, is due, and passes the Top-10 filter. |
| `Queue.QueueHead` | app.js:191 | The queue is empty exactly when no card qualifies. Its head, the card shown, is the first qualifying card. |
| `Queue.QueueAfterAnswer` | app.js:222-251 | After the head is rescheduled past `now`, the queue is exactly the rest of the old queue, in order. |
| `Queue.PulledDueByFind` | app.js:261-264 | The card `cards.find` returns for an id in the set becomes due at `now`; every other card, a later duplicate of such an id included, is unchanged. |
| `Queue.PulledDueKeeps` | app.js:261-264 | Bringing cards due keeps every card's id, text and level, so levels stay in range. |
| `Queue.PulledDueIsDue` | app.js:305-308 | Each id that names a card has that card due at `now` afterwards. |
| `Queue.PulledDueStep` | app.js:278-281 | One more iteration of the `forEach` updates exactly the card `find` returns for the new id. |
| `Queue.PulledQueueNonEmpty` | app.js:299-308 | Bringing a non-empty set of existing ids due, with the queue restricted to them, leaves a card to show. |
| `WordMemo.App.constructor` | app.js:15-23 | The page starts with no cards, an empty session, the answer hidden, Top-10 mode off, and the stored counts. |
| `WordMemo.App.LeaveTop10Mode` | app.js:153-155 | The mode is off, its set is empty and the answer is hidden; nothing else changes. |
| `WordMemo.App.AutoCloseTop10IfFinished` | app.js:149-157 | Top-10 mode ends, with its set emptied and the answer hidden, exactly when it was on and its queue is empty. Nothing else changes. |
| `WordMemo.App.Draw` | app.js:163-211 | The page shows the card count, the queue length and the unknown count. With no card due it shows "No cards due". Otherwise it shows the head's term, and its meaning exactly when the answer is shown. |
| `WordMemo.App.UpdateUi` | app.js:162-212 | It makes the auto-close's state change, so Top-10 mode never stays on with an empty queue, and then draws as `Draw` does. |
| `WordMemo.App.Show` | app.js:217-220 | The answer is revealed, unless the redraw ends a finished Top-10 mode; the cards and the session are unchanged. |
| `WordMemo.App.Answer` | app.js:229-236 | Recording an answer stores the rescheduled head card, appends its id to the session and hides the answer. The next card shown is the next one of the old queue. |
| `WordMemo.App.Forgot` | app.js:222-237 | With an empty queue nothing changes. Otherwise the head goes to level 0, due in ten minutes, and today's count for it rises by one. Its id is appended to the session and added to the unknown set, and the queue moves on to its next card. |
| `WordMemo.App.Knew` | app.js:239-251 | With an empty queue nothing changes. Otherwise the head goes one level up (at most 5) and is due after that level's interval. Its id is appended to the session and removed from the unknown set, and the queue moves on to its next card. |
| `WordMemo.App.PullDue` | app.js:261-264 | The `forEach` loop over a set of ids leaves the cards exactly as `PulledDue` describes. |
| `WordMemo.App.RepeatAll` | app.js:254-272 | Nothing changes with an empty session or when the confirmation is declined. Otherwise every session card is due now, Top-10 mode is off and the answer hidden; levels and the other cards are unchanged. |
| `WordMemo.App.RepeatUnknown` | app.js:274-289 | Nothing changes with an empty unknown set. Otherwise every unknown card is due now, Top-10 mode is off and the answer hidden; levels and the other cards are unchanged. |
| `WordMemo.App.Top10ForgotIdsToday` | app.js:61-78 | It returns the ranking of today's counts against the current cards. |
| `WordMemo.App.Top10Forgot` | app.js:292-312 | With an empty ranking nothing changes. Otherwise Top-10 mode is on for exactly the ranked ids, their cards are due now, the answer is hidden, and the mode has a card to show. |
| `WordMemo.App.EnterTop10Mode` | app.js:299-310 | It sets the mode and set, brings the ids due and hides the answer; the session and counts are unchanged, and the restricted queue is non-empty. |
| `WordMemo.App.Import` | app.js:317-333 | Without a file nothing changes. Otherwise the file's parsed cards are appended after the existing ones, and Top-10 mode is off with the answer hidden. |
| `WordMemo.App.LoadDefault` | app.js:83-98 | Only with no cards and a successful fetch do the cards become the parsed default list; otherwise nothing changes. |
| `WordMemo.App.ShowLoaded` | app.js:91-94 | The loaded cards replace the list, and the page is redrawn. |
| `WordMemo.App.Clear` | app.js:335-346 | Cards and session are emptied and Top-10 mode is off. The cards then become the default list when it can be fetched. The stored counts and the `showing` flag are untouched. |

Every handler method (`Show`, `Forgot`, `Knew`, `RepeatAll`,
`RepeatUnknown`, `Top10Forgot`, `Import`, `LoadDefault`, `Clear`) requires
and ensures `Valid()`, which the constructor establishes:
every level is in 0..5 (so `days[level - 1]` is always defined), Top-10
mode off means an empty Top-10 set, and every unknown id was answered in
the session.

## Left out

- `sw.js` (the service worker's caching and network fallback): browser I/O, not part of the review logic.
- DOM access (`$`, `textContent`, `style.display`, the `currentFile` label, the "Failed to load words.txt" message) and the `onclick` wiring. `Draw` returns the screen's content instead of writing it.
- `localStorage` and JSON: `forgotStats` is a field holding what storage holds. Reading storage anew at each bump, and its JSON round trip, are not modelled. Another tab writing the same key is not modelled either.
- `todayKey()` and `Date.now()`: they are the parameters `today` and `now`. Each handler reads the clock once, while the source calls `Date.now()` separately in `getQueue` and `nextDue`.
- `Parse.NewCards`, `Parse.ParseText`: `parseText` calls `Date.now()` once per card (app.js:124), so the cards of one import may get due times a few milliseconds apart; the model gives them all the same `now`.
- Strings are sequences of Dafny characters, which are Unicode scalar values, while JavaScript strings are UTF-16 code units. A character outside the Basic Multilingual Plane is one character here and two code units there. The tab, " - ", the line breaks and the whitespace `trim` removes are all single code units, so splitting and trimming agree.
- `Math.random()` ids: `freshId` is a parameter. `Parse.NewCards`, `Parse.ParseText`: these do not promise that the ids are distinct, because random ids can collide. Where ids repeat, the model follows `cards.find` and uses the first card with the id.
- `Object.entries` lists integer-like keys first. The model keeps plain insertion order for all keys.
- `ForgotStats.SortByCountDesc`: counts are natural numbers. A stored count that is missing or not a number (the comparator's `|| 0`) is not modelled.
- `WordMemo.App.Forgot`: the well-formedness of the stored counts (each id once per day) is not part of `Valid()`. `ForgotStats.BumpForgotCount` proves separately that a bump preserves it.
- `WordMemo.App.RepeatAll`: the ids of `sessionAllIds` are used as a set. Duplicates and order do not matter, because every visit writes the same `now`.
- `WordMemo.App.LoadDefault`, `WordMemo.App.Clear`, `WordMemo.App.Import`: `await` is not modelled. The fetch or file read is an argument, so a handler that runs while another awaits is not modelled.
- Cards are values in a sequence, not shared objects. The source changes the head card object in place, and the model replaces that element. `parseText` builds a new object per card, so no card object appears twice and nothing aliases.
