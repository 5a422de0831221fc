/** Today's "I forgot" counts and the Top-10 ranking built from them. The
    stored statistics map a local-date key ("YYYY-MM-DD") to one JSON object
    mapping card id to count; such an object is modelled as an association
    list in insertion order, with each id at most once. */
module ForgotStats {

  import opened Options
  import opened Seqs
  import opened Cards

  /** The local-date key `todayKey()` produces. */
  type DayKey = string

  datatype ForgotEntry = ForgotEntry(id: CardId, count: nat)

  /** One day's counts, in insertion order. */
  type DayCounts = seq<ForgotEntry>

  type Stats = map<DayKey, DayCounts>

  /** How many ids the Top-10 ranking returns at most. */
  const TopLimit := 10

  /** A JSON object has each key once. */
  predicate DistinctIds(day: DayCounts)
  {
    forall i, j :: 0 <= i < j < |day| ==> day[i].id != day[j].id
  }

  predicate WellFormedStats(stats: Stats)
  {
    forall d :: d in stats ==> DistinctIds(stats[d])
  }

  /** `day[id] || 0`. */
  function CountOf(day: DayCounts, id: CardId): nat
  {
    if day == [] then 0
    else if day[0].id == id then day[0].count
    else CountOf(day[1..], id)
  }

  /** `stats[key] || {}`. */
  function DayOf(stats: Stats, key: DayKey): DayCounts
  {
    if key in stats then stats[key] else []
  }

  /** `day[id] = (day[id] || 0) + 1`: the id's count goes up by exactly one
      (an absent id enters at 1, at the end); no other id's count changes and
      the existing ids keep their order. */
  function BumpDay(day: DayCounts, id: CardId): (r: DayCounts)
    ensures CountOf(r, id) == CountOf(day, id) + 1
    ensures forall other :: other != id ==> CountOf(r, other) == CountOf(day, other)
    ensures |r| == |day| || |r| == |day| + 1
    ensures forall k :: 0 <= k < |day| ==> r[k].id == day[k].id
    ensures |r| == |day| + 1 ==> r[|day|] == ForgotEntry(id, 1) && forall k :: 0 <= k < |day| ==> day[k].id != id
  {
    if day == [] then [ForgotEntry(id, 1)]
    else if day[0].id == id then [day[0].(count := day[0].count + 1)] + day[1..]
    else
      [day[0]] + BumpDay(day[1..], id)
  }

  /** Bumping keeps each id once. */
  lemma {:induction false} BumpDayDistinct(day: DayCounts, id: CardId)
    requires DistinctIds(day)
    ensures DistinctIds(BumpDay(day, id))
  {
    if day != [] && day[0].id != id {
      var rest := BumpDay(day[1..], id);
      assert DistinctIds(day[1..]);
      BumpDayDistinct(day[1..], id);
      forall k | 0 <= k < |rest| ensures rest[k].id != day[0].id {
        if k < |day| - 1 {
          assert rest[k].id == day[k + 1].id;
        }
      }
      DistinctCons(day[0], rest);
    }
  }

  lemma DistinctCons(x: ForgotEntry, t: DayCounts)
    requires DistinctIds(t) && forall k :: 0 <= k < |t| ==> t[k].id != x.id
    ensures DistinctIds([x] + t)
  {
    var r := [x] + t;
    forall i, j | 0 <= i < j < |r| ensures r[i].id != r[j].id {
      if i > 0 {
        assert r[i] == t[i - 1] && r[j] == t[j - 1];
      } else {
        assert r[j] == t[j - 1];
      }
    }
  }

  /** `bumpForgotCount(cardId)` on date `today`: today's counts get the bump,
      creating today's record if it is absent; other dates are untouched. */
  function BumpForgotCount(stats: Stats, today: DayKey, id: CardId): (r: Stats)
    ensures today in r && r[today] == BumpDay(DayOf(stats, today), id)
    ensures forall d :: d != today ==> (d in r <==> d in stats)
    ensures forall d :: d != today && d in stats ==> r[d] == stats[d]
    ensures WellFormedStats(stats) ==> WellFormedStats(r)
  {
    assert WellFormedStats(stats) ==> DistinctIds(BumpDay(DayOf(stats, today), id)) by {
      if WellFormedStats(stats) {
        BumpDayDistinct(DayOf(stats, today), id);
      }
    }
    stats[today := BumpDay(DayOf(stats, today), id)]
  }

  /** Counts never increase along `s`. */
  predicate Descending(s: seq<ForgotEntry>)
  {
    forall i, j :: 0 <= i < j < |s| ==> s[i].count >= s[j].count
  }

  /** The entries of `s` with count `c`, in order. */
  function WithCount(s: seq<ForgotEntry>, c: nat): seq<ForgotEntry>
  {
    if s == [] then []
    else if s[0].count == c then [s[0]] + WithCount(s[1..], c)
    else WithCount(s[1..], c)
  }

  /** `e` placed before the first entry whose count is not larger. */
  function InsertByCount(e: ForgotEntry, s: seq<ForgotEntry>): (r: seq<ForgotEntry>)
    ensures multiset(r) == multiset(s) + multiset{e}
    ensures Descending(s) ==> Descending(r)
    ensures |r| == |s| + 1
  {
    if s == [] || s[0].count <= e.count then [e] + s
    else
      var t := InsertByCount(e, s[1..]);
      assert multiset(s) == multiset{s[0]} + multiset(s[1..]) by { assert s == [s[0]] + s[1..]; }
      assert multiset([s[0]] + t) == multiset{s[0]} + multiset(t);
      assert Descending(s) ==> Descending([s[0]] + t) by {
        if Descending(s) {
          assert Descending(s[1..]) by {
            forall i, j | 0 <= i < j < |s| - 1 ensures s[1..][i].count >= s[1..][j].count {
              assert s[1..][i] == s[i + 1] && s[1..][j] == s[j + 1];
            }
          }
          DescendingAfterHead(e, s, t);
        }
      }
      [s[0]] + t
  }

  /** The head of a descending `s` stays in front of `e` inserted into the
      rest, when it is larger than `e`. */
  lemma DescendingAfterHead(e: ForgotEntry, s: seq<ForgotEntry>, t: seq<ForgotEntry>)
    requires s != [] && s[0].count > e.count && Descending(s)
    requires Descending(t) && multiset(t) == multiset(s[1..]) + multiset{e}
    ensures Descending([s[0]] + t)
  {
    var r := [s[0]] + t;
    forall j | 0 < j < |r| ensures r[0].count >= r[j].count {
      assert r[j] == t[j - 1];
      assert t[j - 1] in multiset(t);
      if t[j - 1] != e {
        assert t[j - 1] in multiset(s[1..]);
        var m :| 0 <= m < |s[1..]| && s[1..][m] == t[j - 1];
        assert s[m + 1] == t[j - 1];
      }
    }
  }

  /** Inserting keeps the order among equal counts: the inserted entry comes
      before all entries of its own count. */
  lemma {:induction false} InsertByCountStable(e: ForgotEntry, s: seq<ForgotEntry>, c: nat)
    ensures WithCount(InsertByCount(e, s), c) == if e.count == c then [e] + WithCount(s, c) else WithCount(s, c)
  {
    if s == [] || s[0].count <= e.count {
      assert InsertByCount(e, s)[1..] == s;
    } else {
      InsertByCountStable(e, s[1..], c);
      assert InsertByCount(e, s)[1..] == InsertByCount(e, s[1..]);
    }
  }

  /** `entries.sort((a, b) => b[1] - a[1])`: a stable sort by count, largest
      first (an insertion sort, which is stable). */
  function SortByCountDesc(s: seq<ForgotEntry>): (r: seq<ForgotEntry>)
    ensures Descending(r)
    ensures multiset(r) == multiset(s)
    ensures |r| == |s|
  {
    if s == [] then []
    else
      assert multiset(s) == multiset(s[1..]) + multiset{s[0]} by { assert s == [s[0]] + s[1..]; }
      InsertByCount(s[0], SortByCountDesc(s[1..]))
  }

  /** The sort is stable: entries of equal count keep their relative order. */
  lemma {:induction false} SortStable(s: seq<ForgotEntry>, c: nat)
    ensures WithCount(SortByCountDesc(s), c) == WithCount(s, c)
  {
    if s != [] {
      SortStable(s[1..], c);
      InsertByCountStable(s[0], SortByCountDesc(s[1..]), c);
    }
  }

  /** The entries of `s` whose id is in `existing`, in order
      (`if (existing.has(id)) ...`). */
  function ExistingEntries(s: seq<ForgotEntry>, existing: set<CardId>): (r: seq<ForgotEntry>)
    ensures |r| <= |s|
    ensures forall k :: 0 <= k < |r| ==> r[k].id in existing
    ensures forall k :: 0 <= k < |r| ==> r[k] in s
  {
    if s == [] then []
    else if s[0].id in existing then [s[0]] + ExistingEntries(s[1..], existing)
    else ExistingEntries(s[1..], existing)
  }

  /** The ids of a sequence of entries. */
  function IdsOf(s: seq<ForgotEntry>): (r: seq<CardId>)
    ensures |r| == |s| && forall k :: 0 <= k < |s| ==> r[k] == s[k].id
  {
    if s == [] then [] else [s[0].id] + IdsOf(s[1..])
  }

  /** The entries behind `getTopForgotIdsToday`: today's entries sorted by
      count (stable), restricted to ids of existing cards, first ten. */
  function TopForgotten(day: DayCounts, existing: set<CardId>): seq<ForgotEntry>
  {
    Take(ExistingEntries(SortByCountDesc(day), existing), TopLimit)
  }

  lemma {:induction false} ExistingEntriesMultiset(s: seq<ForgotEntry>, existing: set<CardId>, e: ForgotEntry)
    ensures multiset(ExistingEntries(s, existing))[e] == if e.id in existing then multiset(s)[e] else 0
  {
    if s != [] {
      ExistingEntriesMultiset(s[1..], existing, e);
      assert multiset(s) == multiset{s[0]} + multiset(s[1..]) by {
        assert s == [s[0]] + s[1..];
      }
      var rest := ExistingEntries(s[1..], existing);
      if s[0].id in existing {
        assert multiset(ExistingEntries(s, existing)) == multiset{s[0]} + multiset(rest) by {
          assert ExistingEntries(s, existing) == [s[0]] + rest;
        }
      } else {
        assert ExistingEntries(s, existing) == rest;
      }
    }
  }

  lemma {:induction false} ExistingEntriesDescending(s: seq<ForgotEntry>, existing: set<CardId>)
    requires Descending(s)
    ensures Descending(ExistingEntries(s, existing))
  {
    if s != [] {
      ExistingEntriesDescending(s[1..], existing);
      var r := ExistingEntries(s, existing);
      if s[0].id in existing {
        forall j | 0 < j < |r| ensures r[0].count >= r[j].count {
          assert r[j] in s[1..];
        }
      }
    }
  }

  /** Restricting to existing ids distributes over concatenation. */
  lemma {:induction false} ExistingEntriesAppend(a: seq<ForgotEntry>, b: seq<ForgotEntry>, existing: set<CardId>)
    ensures ExistingEntries(a + b, existing) == ExistingEntries(a, existing) + ExistingEntries(b, existing)
  {
    if a == [] {
      assert a + b == b;
    } else {
      assert (a + b)[1..] == a[1..] + b;
      ExistingEntriesAppend(a[1..], b, existing);
    }
  }

  lemma {:induction false} ExistingWithCountCommute(s: seq<ForgotEntry>, existing: set<CardId>, c: nat)
    ensures WithCount(ExistingEntries(s, existing), c) == ExistingEntries(WithCount(s, c), existing)
  {
    if s != [] {
      ExistingWithCountCommute(s[1..], existing, c);
    }
  }

  lemma {:induction false} WithCountPrefix(s: seq<ForgotEntry>, n: nat, c: nat)
    requires n <= |s|
    ensures WithCount(s[..n], c) <= WithCount(s, c)
  {
    if n > 0 {
      WithCountPrefix(s[1..], n - 1, c);
      assert s[..n][1..] == s[1..][..n - 1];
    }
  }

  /** The ranking returns at most ten entries, all of existing cards, with
      counts non-increasing along it. */
  lemma TopForgottenShape(day: DayCounts, existing: set<CardId>)
    ensures |TopForgotten(day, existing)| <= TopLimit
    ensures forall k :: 0 <= k < |TopForgotten(day, existing)| ==> TopForgotten(day, existing)[k].id in existing
    ensures Descending(TopForgotten(day, existing))
  {
    var all := ExistingEntries(SortByCountDesc(day), existing);
    ExistingEntriesDescending(SortByCountDesc(day), existing);
    var r := TopForgotten(day, existing);
    forall k | 0 <= k < |r| ensures r[k] == all[k] && r[k].id in existing {
    }
  }

  /** The ranked ids all name existing cards, so the Top-10 set they form
      is non-empty exactly when the ranking is. */
  lemma RankedIdsExist(day: DayCounts, existing: set<CardId>)
    ensures Elements(IdsOf(TopForgotten(day, existing))) <= existing
    ensures IdsOf(TopForgotten(day, existing)) != [] <==> Elements(IdsOf(TopForgotten(day, existing))) != {}
  {
    var ids := IdsOf(TopForgotten(day, existing));
    TopForgottenShape(day, existing);
    if ids != [] {
      assert ids[0] in Elements(ids);
    }
  }

  /** Ties keep their insertion order: for every count, the returned entries
      of that count are the first ones of that count among today's entries
      of existing cards, in the order they were first recorded. */
  lemma TopForgottenStable(day: DayCounts, existing: set<CardId>, c: nat)
    ensures WithCount(TopForgotten(day, existing), c) <= WithCount(ExistingEntries(day, existing), c)
  {
    var sorted := SortByCountDesc(day);
    var all := ExistingEntries(sorted, existing);
    if |all| > TopLimit {
      WithCountPrefix(all, TopLimit, c);
    }
    ExistingWithCountCommute(sorted, existing, c);
    SortStable(day, c);
    ExistingWithCountCommute(day, existing, c);
  }

  /** Sorting does not change which entries of existing cards there are. */
  lemma SortedExistingPermutation(day: DayCounts, existing: set<CardId>)
    ensures multiset(ExistingEntries(SortByCountDesc(day), existing)) == multiset(ExistingEntries(day, existing))
  {
    var sorted := SortByCountDesc(day);
    forall e ensures multiset(ExistingEntries(sorted, existing))[e] == multiset(ExistingEntries(day, existing))[e] {
      ExistingEntriesMultiset(sorted, existing, e);
      ExistingEntriesMultiset(day, existing, e);
    }
  }

  /** The ranking holds min(10, n) of the n entries of existing cards, and
      only entries drawn from them. */
  lemma TopForgottenDrawn(day: DayCounts, existing: set<CardId>)
    ensures |TopForgotten(day, existing)| == Min(|ExistingEntries(day, existing)|, TopLimit)
    ensures multiset(TopForgotten(day, existing)) <= multiset(ExistingEntries(day, existing))
  {
    var s := ExistingEntries(SortByCountDesc(day), existing);
    var all := ExistingEntries(day, existing);
    var r := TopForgotten(day, existing);
    SortedExistingPermutation(day, existing);
    assert |s| == |all| by {
      assert |multiset(s)| == |multiset(all)|;
    }
    assert s == r + s[|r|..];
    assert multiset(s) == multiset(r) + multiset(s[|r|..]);
  }

  function Min(a: int, b: int): int
  {
    if a < b then a else b
  }

  /** When there are at most ten entries of existing cards, the ranking
      holds all of them. */
  lemma TopForgottenAll(day: DayCounts, existing: set<CardId>)
    requires |ExistingEntries(day, existing)| <= TopLimit
    ensures multiset(TopForgotten(day, existing)) == multiset(ExistingEntries(day, existing))
  {
    var s := ExistingEntries(SortByCountDesc(day), existing);
    SortedExistingPermutation(day, existing);
    assert |s| == |ExistingEntries(day, existing)| by {
      assert |multiset(s)| == |multiset(ExistingEntries(day, existing))|;
    }
    assert TopForgotten(day, existing) == s;
  }

  /** The ranking takes the largest counts: when it is full, no entry of an
      existing card that it leaves out has a larger count than the last one
      returned. */
  lemma TopForgottenLargest(day: DayCounts, existing: set<CardId>, e: ForgotEntry)
    requires e in ExistingEntries(day, existing)
    requires |TopForgotten(day, existing)| == TopLimit
    requires e.count > TopForgotten(day, existing)[TopLimit - 1].count
    ensures e in TopForgotten(day, existing)
  {
    var sorted := SortByCountDesc(day);
    var s := ExistingEntries(sorted, existing);
    SortedExistingPermutation(day, existing);
    assert e in multiset(ExistingEntries(day, existing));
    ExistingEntriesDescending(sorted, existing);
    TopIncludesLarger(s, e);
  }

  lemma TopIncludesLarger(s: seq<ForgotEntry>, e: ForgotEntry)
    requires Descending(s) && e in multiset(s) && |s| >= TopLimit
    requires e.count > s[TopLimit - 1].count
    ensures e in s[..TopLimit]
  {
    var j :| 0 <= j < |s| && s[j] == e;
    assert j < TopLimit;
    assert s[..TopLimit][j] == e;
  }

  /** With each id recorded once a day, the count carried by every entry the
      ranking returns is that id's count for the day. */
  lemma TopForgottenCounts(day: DayCounts, existing: set<CardId>)
    requires DistinctIds(day)
    ensures forall k :: 0 <= k < |TopForgotten(day, existing)| ==>
              CountOf(day, TopForgotten(day, existing)[k].id) == TopForgotten(day, existing)[k].count
  {
    TopForgottenDrawn(day, existing);
    var r := TopForgotten(day, existing);
    var all := ExistingEntries(day, existing);
    forall k | 0 <= k < |r| ensures CountOf(day, r[k].id) == r[k].count {
      assert r[k] in multiset(r);
      assert r[k] in all;
      CountOfMember(day, r[k]);
    }
  }

  lemma {:induction false} CountOfMember(day: DayCounts, e: ForgotEntry)
    requires DistinctIds(day) && e in day
    ensures CountOf(day, e.id) == e.count
  {
    if day[0] != e {
      assert DistinctIds(day[1..]);
      assert e in day[1..];
      var j :| 0 <= j < |day[1..]| && day[1..][j] == e;
      assert day[j + 1] == e;
      CountOfMember(day[1..], e);
    }
  }

  /** Counts a:3, b:5, c:5, d:1 recorded in that order rank as b, c, a, d:
      largest first, and b before c because it was recorded first. */
  lemma TopForgottenExample(a: CardId, b: CardId, c: CardId, d: CardId)
    ensures var ea, eb, ec, ed := ForgotEntry(a, 3), ForgotEntry(b, 5), ForgotEntry(c, 5), ForgotEntry(d, 1);
      TopForgotten([ea] + ([eb] + ([ec] + [ed])), {a, b, c, d}) == [eb] + ([ec] + ([ea] + [ed]))
  {
    var ea, eb, ec, ed := ForgotEntry(a, 3), ForgotEntry(b, 5), ForgotEntry(c, 5), ForgotEntry(d, 1);
    var r := [eb] + ([ec] + ([ea] + [ed]));
    SortExample(ea, eb, ec, ed);
    KeptExample(ea, eb, ec, ed, {a, b, c, d});
    assert |r| == 4;
  }

  /** Entries of the example whose ids all exist are all kept. */
  lemma KeptExample(ea: ForgotEntry, eb: ForgotEntry, ec: ForgotEntry, ed: ForgotEntry, existing: set<CardId>)
    requires ea.id in existing && eb.id in existing && ec.id in existing && ed.id in existing
    ensures ExistingEntries([eb] + ([ec] + ([ea] + [ed])), existing) == [eb] + ([ec] + ([ea] + [ed]))
  {
    assert [ed] == [ed] + [];
    ExistingCons(ed, [], existing);
    ExistingCons(ea, [ed], existing);
    ExistingCons(ec, [ea] + [ed], existing);
    ExistingCons(eb, [ec] + ([ea] + [ed]), existing);
  }

  /** The sort of the example: the two entries of count 5 keep their order
      ahead of the 3, and the 1 comes last. */
  lemma SortExample(ea: ForgotEntry, eb: ForgotEntry, ec: ForgotEntry, ed: ForgotEntry)
    requires ea.count == 3 && eb.count == 5 && ec.count == 5 && ed.count == 1
    ensures SortByCountDesc([ea] + ([eb] + ([ec] + [ed]))) == [eb] + ([ec] + ([ea] + [ed]))
  {
    var s1 := [ed];
    var s2 := [ec] + s1;
    var s3 := [eb] + s2;
    assert SortByCountDesc(s1) == s1 by {
      assert s1 == [ed] + [];
      SortCons(ed, []);
      InsertFront(ed, []);
    }
    assert SortByCountDesc(s2) == s2 by {
      SortCons(ec, s1);
      InsertFront(ec, s1);
    }
    assert SortByCountDesc(s3) == s3 by {
      SortCons(eb, s2);
      InsertFront(eb, s2);
    }
    SortCons(ea, s3);
    InsertBehind(ea, eb, s2);
    InsertBehind(ea, ec, s1);
    InsertFront(ea, s1);
  }

  /** One step of the sort: the first entry is inserted into the sorted rest. */
  lemma SortCons(x: ForgotEntry, s: seq<ForgotEntry>)
    ensures SortByCountDesc([x] + s) == InsertByCount(x, SortByCountDesc(s))
  {
    assert ([x] + s)[1..] == s;
  }

  /** An entry at least as large as the first goes in front. */
  lemma InsertFront(e: ForgotEntry, s: seq<ForgotEntry>)
    requires s == [] || s[0].count <= e.count
    ensures InsertByCount(e, s) == [e] + s
  {
  }

  /** An entry smaller than the first goes behind it. */
  lemma InsertBehind(e: ForgotEntry, x: ForgotEntry, s: seq<ForgotEntry>)
    requires x.count > e.count
    ensures InsertByCount(e, [x] + s) == [x] + InsertByCount(e, s)
  {
    assert ([x] + s)[1..] == s;
  }

  /** An entry of an existing card is kept, in front. */
  lemma ExistingCons(x: ForgotEntry, s: seq<ForgotEntry>, existing: set<CardId>)
    requires x.id in existing
    ensures ExistingEntries([x] + s, existing) == [x] + ExistingEntries(s, existing)
  {
    assert ([x] + s)[1..] == s;
  }

  /** `getTop10ForgotIdsToday` from the sort on: sort today's entries by
      count, then scan them. */
  method TopForgottenIds(day: DayCounts, existing: set<CardId>) returns (ids: seq<CardId>)
    ensures ids == IdsOf(TopForgotten(day, existing))
  {
    var entries := SortByCountDesc(day);
    ids := FirstExistingIds(entries, existing);
  }

  /** The loop of `getTop10ForgotIdsToday` over the sorted entries: keep the
      ids of existing cards, stopping once ten are kept. */
  method FirstExistingIds(entries: seq<ForgotEntry>, existing: set<CardId>) returns (ids: seq<CardId>)
    ensures ids == IdsOf(Take(ExistingEntries(entries, existing), TopLimit))
  {
    ghost var kept: seq<ForgotEntry> := [];
    ids := [];
    var i := 0;
    while i < |entries| && |ids| < TopLimit
      invariant 0 <= i <= |entries|
      invariant kept == ExistingEntries(entries[..i], existing)
      invariant ids == IdsOf(kept) && |kept| <= TopLimit
    {
      ExistingEntriesSnoc(entries, i, existing);
      if entries[i].id in existing {
        IdsOfSnoc(kept, entries[i]);
        ids := ids + [entries[i].id];
        kept := kept + [entries[i]];
      }
      i := i + 1;
    }
    TopOfPrefix(entries, i, existing);
  }

  lemma ExistingEntriesSnoc(s: seq<ForgotEntry>, i: nat, existing: set<CardId>)
    requires i < |s|
    ensures ExistingEntries(s[..i + 1], existing) ==
      ExistingEntries(s[..i], existing) + if s[i].id in existing then [s[i]] else []
  {
    assert s[..i + 1] == s[..i] + [s[i]];
    ExistingEntriesAppend(s[..i], [s[i]], existing);
  }

  lemma IdsOfSnoc(s: seq<ForgotEntry>, e: ForgotEntry)
    ensures IdsOf(s + [e]) == IdsOf(s) + [e.id]
  {
  }

  /** Once ten entries of a prefix are kept, or the whole sequence is
      scanned, the rest is never looked at. */
  lemma TopOfPrefix(s: seq<ForgotEntry>, i: nat, existing: set<CardId>)
    requires i <= |s| && |ExistingEntries(s[..i], existing)| <= TopLimit
    requires i == |s| || |ExistingEntries(s[..i], existing)| == TopLimit
    ensures Take(ExistingEntries(s, existing), TopLimit) == ExistingEntries(s[..i], existing)
  {
    assert s == s[..i] + s[i..];
    ExistingEntriesAppend(s[..i], s[i..], existing);
  }
}
