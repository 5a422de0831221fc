/** The due queue (`getQueue`) and the "bring due now" loops of the repeat
    and Top-10 buttons. */
module Queue {

  import opened Options
  import opened Cards

  /** Whether card `c` is in the queue at time `now`: it is due, and in
      Top-10 mode it is also one of the ranked ids. */
  predicate Eligible(c: Card, top10On: bool, top10Set: set<CardId>, now: int)
  {
    (top10On ==> c.id in top10Set) && c.due <= now
  }

  /** The positions, from `i` on, of the cards in the queue. */
  function QueueFrom(cards: seq<Card>, top10On: bool, top10Set: set<CardId>, now: int, i: nat): (r: seq<nat>)
    requires i <= |cards|
    decreases |cards| - i
    ensures forall j :: j in r ==> i <= j < |cards| && Eligible(cards[j], top10On, top10Set, now)
    ensures forall k :: 0 <= k < |r| ==> i <= r[k] < |cards| && Eligible(cards[r[k]], top10On, top10Set, now)
    ensures forall j :: i <= j < |cards| && Eligible(cards[j], top10On, top10Set, now) ==> j in r
  {
    if i == |cards| then []
    else
      var rest := QueueFrom(cards, top10On, top10Set, now, i + 1);
      if Eligible(cards[i], top10On, top10Set, now) then
        assert forall k :: 1 <= k <= |rest| ==> ([i] + rest)[k] == rest[k - 1];
        [i] + rest
      else rest
  }

  /** `getQueue()` as positions in `cards`: exactly the cards in the queue,
      in `cards` order. */
  function QueueIndices(cards: seq<Card>, top10On: bool, top10Set: set<CardId>, now: int): (r: seq<nat>)
    ensures forall k :: 0 <= k < |r| ==> r[k] < |cards| && Eligible(cards[r[k]], top10On, top10Set, now)
    ensures forall j :: 0 <= j < |cards| && Eligible(cards[j], top10On, top10Set, now) ==> j in r
    ensures forall a, b :: 0 <= a < b < |r| ==> r[a] < r[b]
  {
    QueueFromSorted(cards, top10On, top10Set, now, 0);
    QueueFrom(cards, top10On, top10Set, now, 0)
  }

  predicate Increasing(s: seq<nat>)
  {
    forall a, b :: 0 <= a < b < |s| ==> s[a] < s[b]
  }

  /** The positions in the queue are increasing. */
  lemma {:induction false} QueueFromSorted(cards: seq<Card>, top10On: bool, top10Set: set<CardId>, now: int, i: nat)
    requires i <= |cards|
    decreases |cards| - i
    ensures Increasing(QueueFrom(cards, top10On, top10Set, now, i))
  {
    if i < |cards| {
      QueueFromSorted(cards, top10On, top10Set, now, i + 1);
      var rest := QueueFrom(cards, top10On, top10Set, now, i + 1);
      if Eligible(cards[i], top10On, top10Set, now) {
        IncreasingCons(i, rest);
      }
    }
  }

  lemma IncreasingCons(i: nat, s: seq<nat>)
    requires Increasing(s)
    requires forall k :: 0 <= k < |s| ==> i < s[k]
    ensures Increasing([i] + s)
  {
    var r := [i] + s;
    forall a, b | 0 <= a < b < |r| ensures r[a] < r[b] {
      assert r[b] == s[b - 1];
      if a > 0 {
        assert r[a] == s[a - 1];
      }
    }
  }

  /** `getQueue()`: the cards themselves. */
  function QueueCards(cards: seq<Card>, top10On: bool, top10Set: set<CardId>, now: int): (q: seq<Card>)
    ensures forall c :: c in q <==> c in cards && Eligible(c, top10On, top10Set, now)
  {
    var ix := QueueIndices(cards, top10On, top10Set, now);
    var q := seq(|ix|, k requires 0 <= k < |ix| => cards[ix[k]]);
    assert forall c :: c in cards && Eligible(c, top10On, top10Set, now) ==> c in q by {
      forall c | c in cards && Eligible(c, top10On, top10Set, now) ensures c in q {
        var j :| 0 <= j < |cards| && cards[j] == c;
        var k :| 0 <= k < |ix| && ix[k] == j;
        assert q[k] == c;
      }
    }
    q
  }

  /** The head of the queue (the card on screen) is the first card in
      `cards` that is in the queue; the queue is empty exactly when no card
      is in it. */
  lemma QueueHead(cards: seq<Card>, top10On: bool, top10Set: set<CardId>, now: int)
    ensures var ix := QueueIndices(cards, top10On, top10Set, now);
      (ix == [] <==> forall j :: 0 <= j < |cards| ==> !Eligible(cards[j], top10On, top10Set, now))
      && (ix != [] ==> forall j :: 0 <= j < ix[0] ==> !Eligible(cards[j], top10On, top10Set, now))
  {
    var ix := QueueIndices(cards, top10On, top10Set, now);
    assert forall k :: 0 < k < |ix| ==> ix[0] < ix[k];
  }

  /** The queue from `i` on depends only on which cards from `i` on are in
      it. */
  lemma {:induction false} QueueFromAgree(cards: seq<Card>, cards': seq<Card>, top10On: bool, top10Set: set<CardId>, now: int, i: nat)
    requires i <= |cards| == |cards'|
    requires forall j :: i <= j < |cards| ==>
      (Eligible(cards[j], top10On, top10Set, now) <==> Eligible(cards'[j], top10On, top10Set, now))
    decreases |cards| - i
    ensures QueueFrom(cards, top10On, top10Set, now, i) == QueueFrom(cards', top10On, top10Set, now, i)
  {
    if i < |cards| {
      QueueFromAgree(cards, cards', top10On, top10Set, now, i + 1);
    }
  }

  /** Cards not in the queue contribute nothing to it. */
  lemma {:induction false} QueueFromSkip(cards: seq<Card>, top10On: bool, top10Set: set<CardId>, now: int, i: nat, k: nat)
    requires i <= k <= |cards|
    requires forall j :: i <= j < k ==> !Eligible(cards[j], top10On, top10Set, now)
    decreases k - i
    ensures QueueFrom(cards, top10On, top10Set, now, i) == QueueFrom(cards, top10On, top10Set, now, k)
  {
    if i < k {
      QueueFromSkip(cards, top10On, top10Set, now, i + 1, k);
    }
  }

  /** Answering the card on screen at time `now` (either answer reschedules
      it into the future) leaves exactly the rest of the queue, in the same
      order: the next card shown is the next card of the queue. */
  lemma QueueAfterAnswer(cards: seq<Card>, top10On: bool, top10Set: set<CardId>, now: int, answered: Card)
    requires QueueIndices(cards, top10On, top10Set, now) != []
    requires answered.due > now
    ensures var ix := QueueIndices(cards, top10On, top10Set, now);
      QueueIndices(cards[ix[0] := answered], top10On, top10Set, now) == ix[1..]
  {
    var ix := QueueIndices(cards, top10On, top10Set, now);
    var k := ix[0];
    var cards' := cards[k := answered];
    QueueHead(cards, top10On, top10Set, now);
    QueueFromSkip(cards, top10On, top10Set, now, 0, k);
    QueueFromSkip(cards', top10On, top10Set, now, 0, k + 1);
    QueueFromAgree(cards, cards', top10On, top10Set, now, k + 1);
  }

  /** The cards after `ids.forEach(id => { const c = cards.find(x => x.id
      === id); if (c) c.due = now; })`: the first card with each id in
      `ids` is due at `now`; every other card, and everything but `due`, is
      unchanged. */
  function PulledDue(cards: seq<Card>, ids: set<CardId>, now: int): (r: seq<Card>)
    ensures |r| == |cards|
    ensures forall k :: 0 <= k < |r| ==> r[k] == if cards[k].id in ids && FirstWithItsId(cards, k) then cards[k].(due := now) else cards[k]
  {
    seq(|cards|, k requires 0 <= k < |cards| =>
      if cards[k].id in ids && FirstWithItsId(cards, k) then cards[k].(due := now) else cards[k])
  }

  /** What pulling due does, stated through `cards.find`: the card `find`
      returns for an id in `ids` becomes due now; every other card, a later
      duplicate of an id among them, is unchanged. */
  lemma PulledDueByFind(cards: seq<Card>, ids: set<CardId>, now: int)
    ensures |PulledDue(cards, ids, now)| == |cards|
    ensures forall k :: 0 <= k < |cards| ==>
      PulledDue(cards, ids, now)[k] ==
        if cards[k].id in ids && FindCard(cards, cards[k].id) == Some(k) then cards[k].(due := now) else cards[k]
  {
  }

  /** Pulling due keeps every card's id, text and level. */
  lemma PulledDueKeeps(cards: seq<Card>, ids: set<CardId>, now: int)
    ensures forall k :: 0 <= k < |cards| ==>
      var r := PulledDue(cards, ids, now)[k];
      r.id == cards[k].id && r.term == cards[k].term && r.meaning == cards[k].meaning && r.level == cards[k].level
    ensures LevelsInRange(cards) ==> LevelsInRange(PulledDue(cards, ids, now))
  {
  }

  /** Every id in `ids` that names a card is in the queue afterwards, unless
      Top-10 mode filters it out. */
  lemma PulledDueIsDue(cards: seq<Card>, ids: set<CardId>, now: int, id: CardId)
    requires id in ids && FindCard(cards, id).Some?
    ensures var k := FindCard(cards, id).value;
      PulledDue(cards, ids, now)[k].due == now && PulledDue(cards, ids, now)[k].id == id
  {
  }

  /** Bringing one more id due extends the set already brought due. */
  lemma PulledDueStep(cards: seq<Card>, done: set<CardId>, id: CardId, now: int)
    requires id !in done
    ensures var cur := PulledDue(cards, done, now);
      PulledDue(cards, done + {id}, now) ==
        match FindCard(cur, id)
        case Some(k) => cur[k := cur[k].(due := now)]
        case None => cur
  {
    var cur := PulledDue(cards, done, now);
    var next := PulledDue(cards, done + {id}, now);
    assert forall k :: 0 <= k < |cards| ==> cur[k].id == cards[k].id;
    match FindCard(cur, id)
    case Some(k) =>
      assert FirstWithItsId(cards, k);
      forall j | 0 <= j < |cards| ensures next[j] == cur[k := cur[k].(due := now)][j] {
        if j != k && cards[j].id == id {
          assert k < j;
          assert cards[k].id == cards[j].id;
        }
      }
    case None =>
      forall j | 0 <= j < |cards| ensures next[j] == cur[j] {
        assert cur[j].id != id;
      }
  }

  /** Bringing due a non-empty set of ids that all name cards, and
      restricting the queue to those ids, leaves a non-empty queue: Top-10
      mode always has a card to show when it starts. */
  lemma PulledQueueNonEmpty(cards: seq<Card>, ids: set<CardId>, now: int)
    requires ids != {} && ids <= IdSet(cards)
    ensures QueueIndices(PulledDue(cards, ids, now), true, ids, now) != []
  {
    var id :| id in ids;
    var k := FindCard(cards, id).value;
    PulledDueIsDue(cards, ids, now, id);
    assert Eligible(PulledDue(cards, ids, now)[k], true, ids, now);
  }
}
