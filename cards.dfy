/** A study card and its spaced-repetition schedule: the card record that
    `parseText` builds, `nextDue`, the level changes of the "I forgot" and
    "I knew" buttons, and `cards.find` by id. Times are integer milliseconds
    since the epoch, as `Date.now()` returns them. */
module Cards {

  import opened Options

  /** Card ids are the random base-36 strings `parseText` draws; nothing
      here depends on how they are drawn. */
  type CardId = string

  datatype Card = Card(id: CardId, term: string, meaning: string, level: int, due: int)

  /** The highest level "I knew" can reach. */
  const MaxLevel := 5

  const MinuteMs := 60 * 1000
  const DayMs := 86400000

  /** Review interval in days for levels 1 through 5 (the `days` array). */
  const IntervalDays: seq<int> := [1, 3, 7, 14, 30]

  predicate LevelInRange(c: Card)
  {
    0 <= c.level <= MaxLevel
  }

  /** Every card's level can index `IntervalDays` after subtracting one. */
  predicate LevelsInRange(cards: seq<Card>)
  {
    forall k :: 0 <= k < |cards| ==> LevelInRange(cards[k])
  }

  /** Levels in range on both sides of a concatenation. */
  lemma LevelsInRangeAppend(a: seq<Card>, b: seq<Card>)
    requires LevelsInRange(a) && LevelsInRange(b)
    ensures LevelsInRange(a + b)
  {
    forall k | 0 <= k < |a + b| ensures LevelInRange((a + b)[k]) {
      if k >= |a| {
        assert (a + b)[k] == b[k - |a|];
      }
    }
  }

  /** `nextDue(level)` read at time `now`: ten minutes for level 0, otherwise
      the level's interval in days. A level outside 0..5 would read past the
      end of `days` in the source, which is why every card keeps its level in
      range. */
  function NextDue(level: int, now: int): (r: int)
    requires 0 <= level <= MaxLevel
    ensures now < r <= now + 30 * DayMs
    ensures level == 0 <==> r - now < DayMs
  {
    if level == 0 then now + 10 * MinuteMs
    else now + IntervalDays[level - 1] * DayMs
  }

  /** A higher level is always scheduled further out. */
  lemma NextDueMonotonic(a: int, b: int, now: int)
    requires 0 <= a < b <= MaxLevel
    ensures NextDue(a, now) < NextDue(b, now)
  {
  }

  /** The gaps of the schedule, written out. */
  lemma NextDueTable(now: int)
    ensures NextDue(0, now) == now + 600000
    ensures NextDue(1, now) == now + 1 * 86400000
    ensures NextDue(2, now) == now + 3 * 86400000
    ensures NextDue(3, now) == now + 7 * 86400000
    ensures NextDue(4, now) == now + 14 * 86400000
    ensures NextDue(5, now) == now + 30 * 86400000
  {
  }

  /** The card after "I forgot": back to level 0, due again in ten minutes. */
  function Forgotten(c: Card, now: int): (r: Card)
    ensures r.id == c.id && r.term == c.term && r.meaning == c.meaning
    ensures r.level == 0 && LevelInRange(r)
    ensures r.due == NextDue(0, now) && now < r.due < now + DayMs
  {
    c.(level := 0, due := NextDue(0, now))
  }

  /** The card after "I knew": one level up, capped at `MaxLevel`, and due
      after that level's interval. */
  function Known(c: Card, now: int): (r: Card)
    requires LevelInRange(c)
    ensures r.id == c.id && r.term == c.term && r.meaning == c.meaning
    ensures LevelInRange(r) && r.level >= 1
    ensures c.level < MaxLevel ==> r.level == c.level + 1
    ensures c.level == MaxLevel ==> r.level == MaxLevel
    ensures r.due == NextDue(r.level, now) && r.due > now
  {
    var level := if c.level + 1 < MaxLevel then c.level + 1 else MaxLevel;
    c.(level := level, due := NextDue(level, now))
  }

  /** Five "I knew" answers in a row take any card to the top level, and its
      next review is then thirty days out. */
  lemma {:induction false} KnownRepeatedly(c: Card, now: int, n: nat)
    requires LevelInRange(c)
    ensures LevelInRange(KnownTimes(c, now, n))
    ensures KnownTimes(c, now, n).level == if c.level + n < MaxLevel then c.level + n else MaxLevel
    ensures n >= MaxLevel ==> KnownTimes(c, now, n).due == now + 30 * DayMs
  {
    if n > 0 {
      KnownRepeatedly(c, now, n - 1);
      NextDueTable(now);
    }
  }

  /** The card after `n` consecutive "I knew" answers at the same time. */
  function KnownTimes(c: Card, now: int, n: nat): (r: Card)
    requires LevelInRange(c)
    ensures LevelInRange(r)
  {
    if n == 0 then c else Known(KnownTimes(c, now, n - 1), now)
  }

  /** `cards.find(x => x.id === id)`, as an index: the first card with that
      id, if any. */
  function FindCard(cards: seq<Card>, id: CardId): (r: Option<nat>)
    ensures r.Some? ==> r.value < |cards| && cards[r.value].id == id
    ensures r.Some? ==> forall j :: 0 <= j < r.value ==> cards[j].id != id
    ensures r.None? ==> forall j :: 0 <= j < |cards| ==> cards[j].id != id
  {
    if cards == [] then None
    else if cards[0].id == id then Some(0)
    else match FindCard(cards[1..], id)
      case Some(k) => Some(k + 1)
      case None => None
  }

  /** Whether card `k` is the one `cards.find` returns for its id. */
  predicate FirstWithItsId(cards: seq<Card>, k: nat)
    requires k < |cards|
  {
    forall j :: 0 <= j < k ==> cards[j].id != cards[k].id
  }

  /** Card `k` is the first with its id exactly when `FindCard` returns it
      for that id. */
  lemma FoundIffFirst(cards: seq<Card>, k: nat)
    requires k < |cards|
    ensures FindCard(cards, cards[k].id) == Some(k) <==> FirstWithItsId(cards, k)
  {
  }

  /** The ids of the cards, as `new Set(cards.map(c => c.id))`. */
  function IdSet(cards: seq<Card>): (r: set<CardId>)
    ensures forall id :: id in r <==> FindCard(cards, id).Some?
  {
    set k | 0 <= k < |cards| :: cards[k].id
  }
}
