/** The page's state and its button handlers: the card list, the session's
    answered ids and "unknown" set, whether the answer is shown, Top-10 mode,
    and the stored per-day "I forgot" counts. Every handler reads the clock
    once (`now`); `todayKey()` is the `today` argument; `confirm` and the
    file and `fetch` reads are arguments; `freshId(k)` stands for the random
    id drawn for the `k`-th parsed card. */
module WordMemo {

  import opened Options
  import opened Seqs
  import opened Cards
  import opened Parse
  import opened ForgotStats
  import opened Queue

  /** What `updateUI` puts on the card area. */
  datatype Face = NoCardsDue | Prompt(term: string) | Revealed(term: string, meaning: string)

  /** The three counters and the card area. */
  datatype Screen = Screen(cardCount: nat, dueCount: nat, unknownCount: nat, face: Face)

  /** Whether Top-10 mode survives `autoCloseTop10IfFinished`: it was on and
      its queue still has a card. */
  predicate StaysOpen(cards: seq<Card>, top10On: bool, top10Set: set<CardId>, now: int)
  {
    top10On && QueueIndices(cards, top10On, top10Set, now) != []
  }

  class App {
    var cards: seq<Card>
    var sessionAllIds: seq<CardId>
    var sessionUnknown: set<CardId>
    var showing: bool
    var top10ModeOn: bool
    var top10Set: set<CardId>
    /** The counts kept in local storage under the forgot-stats key. */
    var forgotStats: Stats

    /** Levels stay within the schedule, Top-10 mode off means an empty
        Top-10 set, and every "unknown" id was answered in this session. */
    predicate Valid()
      reads this
    {
      LevelsInRange(cards)
      && (!top10ModeOn ==> top10Set == {})
      && forall id :: id in sessionUnknown ==> id in sessionAllIds
    }

    /** The page as loaded: no cards, an empty session, and whatever counts
        local storage holds. */
    constructor (stored: Stats)
      ensures Valid()
      ensures cards == [] && sessionAllIds == [] && sessionUnknown == {}
      ensures !showing && !top10ModeOn && top10Set == {} && forgotStats == stored
    {
      cards := [];
      sessionAllIds := [];
      sessionUnknown := {};
      showing := false;
      top10ModeOn := false;
      top10Set := {};
      forgotStats := stored;
    }

    /** The clean-up shared by the repeat buttons, "Import" and the
        automatic end of Top-10 mode: the mode is off, its set empty, and
        the answer hidden. */
    method LeaveTop10Mode()
      modifies this
      ensures !top10ModeOn && top10Set == {} && !showing
      ensures cards == old(cards) && sessionAllIds == old(sessionAllIds)
      ensures sessionUnknown == old(sessionUnknown) && forgotStats == old(forgotStats)
    {
      top10ModeOn := false;
      top10Set := {};
      showing := false;
    }

    /** `autoCloseTop10IfFinished`: Top-10 mode with nothing left to study
        switches itself off and hides the answer. */
    method AutoCloseTop10IfFinished(now: int)
      modifies this
      ensures top10ModeOn == StaysOpen(cards, old(top10ModeOn), old(top10Set), now)
      ensures top10Set == if top10ModeOn || !old(top10ModeOn) then old(top10Set) else {}
      ensures showing == (old(showing) && (top10ModeOn || !old(top10ModeOn)))
      ensures cards == old(cards) && sessionAllIds == old(sessionAllIds)
      ensures sessionUnknown == old(sessionUnknown) && forgotStats == old(forgotStats)
      ensures old(Valid()) ==> Valid()
    {
      if !top10ModeOn {
        return;
      }
      var q := QueueIndices(cards, top10ModeOn, top10Set, now);
      if |q| == 0 {
        LeaveTop10Mode();
      }
    }

    /** The drawing half of `updateUI`: the three counters, then the head
        of the queue, its term, and its meaning once it is revealed. */
    method Draw(now: int) returns (s: Screen)
      ensures s.cardCount == |cards| && s.unknownCount == |sessionUnknown|
      ensures s.dueCount == |QueueIndices(cards, top10ModeOn, top10Set, now)|
      ensures s.face == NoCardsDue <==> s.dueCount == 0
      ensures s.face.Prompt? <==> s.dueCount > 0 && !showing
      ensures s.face != NoCardsDue ==>
        var head := cards[QueueIndices(cards, top10ModeOn, top10Set, now)[0]];
        s.face.term == head.term && (s.face.Revealed? ==> s.face.meaning == head.meaning)
    {
      var queue := QueueIndices(cards, top10ModeOn, top10Set, now);
      if |queue| == 0 {
        return Screen(|cards|, 0, |sessionUnknown|, NoCardsDue);
      }
      var card := cards[queue[0]];
      if showing {
        s := Screen(|cards|, |queue|, |sessionUnknown|, Revealed(card.term, card.meaning));
      } else {
        s := Screen(|cards|, |queue|, |sessionUnknown|, Prompt(card.term));
      }
    }

    /** `updateUI`: closes a finished Top-10 mode, so that the mode never
        stays on with an empty queue, then draws the page as `Draw` does and
        returns what it drew. */
    method UpdateUi(now: int) returns (screen: Screen)
      modifies this
      ensures top10ModeOn == StaysOpen(cards, old(top10ModeOn), old(top10Set), now)
      ensures top10Set == if top10ModeOn || !old(top10ModeOn) then old(top10Set) else {}
      ensures showing == (old(showing) && (top10ModeOn || !old(top10ModeOn)))
      ensures cards == old(cards) && sessionAllIds == old(sessionAllIds)
      ensures sessionUnknown == old(sessionUnknown) && forgotStats == old(forgotStats)
      ensures old(Valid()) ==> Valid()
      ensures top10ModeOn ==> QueueIndices(cards, top10ModeOn, top10Set, now) != []
      ensures screen.cardCount == |cards| && screen.unknownCount == |sessionUnknown|
      ensures screen.dueCount == |QueueIndices(cards, top10ModeOn, top10Set, now)|
      ensures screen.face == NoCardsDue <==> screen.dueCount == 0
      ensures screen.face.Prompt? <==> screen.dueCount > 0 && !showing
      ensures screen.face != NoCardsDue ==>
        var head := cards[QueueIndices(cards, top10ModeOn, top10Set, now)[0]];
        screen.face.term == head.term && (screen.face.Revealed? ==> screen.face.meaning == head.meaning)
    {
      var queue := QueueIndices(cards, top10ModeOn, top10Set, now);
      if |queue| == 0 && top10ModeOn {
        AutoCloseTop10IfFinished(now);
      }
      screen := Draw(now);
    }

    /** "Show": reveal the answer. */
    method Show(now: int)
      requires Valid()
      modifies this
      ensures Valid()
      ensures top10ModeOn == StaysOpen(cards, old(top10ModeOn), old(top10Set), now)
      ensures top10Set == if top10ModeOn then old(top10Set) else {}
      ensures showing == (top10ModeOn || !old(top10ModeOn))
      ensures cards == old(cards) && sessionAllIds == old(sessionAllIds)
      ensures sessionUnknown == old(sessionUnknown) && forgotStats == old(forgotStats)
    {
      showing := true;
      var _ := UpdateUi(now);
    }

    /** The answered card leaves the screen; the state after `showing =
        false; updateUI()`. */
    predicate AfterAnswer(top10Before: bool, top10SetBefore: set<CardId>, now: int)
      reads this
    {
      top10ModeOn == StaysOpen(cards, top10Before, top10SetBefore, now)
      && top10Set == (if top10ModeOn then top10SetBefore else {})
      && !showing
    }

    /** What both answer buttons do with the card on screen (position `k`):
        record its id in the session, set the unknown set, store the card
        with its new level and due time, hide the answer and redraw. The
        next card shown is the next one of the queue. */
    method Answer(k: nat, answered: Card, unknown: set<CardId>, now: int)
      requires Valid()
      requires QueueIndices(cards, top10ModeOn, top10Set, now) != []
      requires k == QueueIndices(cards, top10ModeOn, top10Set, now)[0]
      requires answered.id == cards[k].id && LevelInRange(answered) && answered.due > now
      requires forall id :: id in unknown ==> id in sessionAllIds || id == answered.id
      modifies this
      ensures Valid()
      ensures cards == old(cards)[k := answered] && sessionAllIds == old(sessionAllIds) + [answered.id]
      ensures sessionUnknown == unknown && forgotStats == old(forgotStats)
      ensures AfterAnswer(old(top10ModeOn), old(top10Set), now)
      ensures QueueIndices(cards, old(top10ModeOn), old(top10Set), now) == old(QueueIndices(cards, top10ModeOn, top10Set, now))[1..]
    {
      QueueAfterAnswer(cards, top10ModeOn, top10Set, now, answered);
      sessionAllIds := sessionAllIds + [answered.id];
      sessionUnknown := unknown;
      cards := cards[k := answered];
      showing := false;
      var _ := UpdateUi(now);
    }

    /** "I forgot": the head of the queue goes back to level 0, due in ten
        minutes, today's count for it goes up by one, and it joins the
        session and the unknown set. With an empty queue nothing happens. */
    method Forgot(now: int, today: DayKey)
      requires Valid()
      modifies this
      ensures Valid()
      ensures QueueIndices(old(cards), old(top10ModeOn), old(top10Set), now) == [] ==> unchanged(this)
      ensures var ix := QueueIndices(old(cards), old(top10ModeOn), old(top10Set), now);
        ix != [] ==>
          var k := ix[0];
          var id := old(cards)[k].id;
          cards == old(cards)[k := Forgotten(old(cards)[k], now)]
          && forgotStats == BumpForgotCount(old(forgotStats), today, id)
          && sessionAllIds == old(sessionAllIds) + [id]
          && sessionUnknown == old(sessionUnknown) + {id}
          && AfterAnswer(old(top10ModeOn), old(top10Set), now)
          && QueueIndices(cards, old(top10ModeOn), old(top10Set), now) == ix[1..]
    {
      var ix := QueueIndices(cards, top10ModeOn, top10Set, now);
      if |ix| == 0 {
        return;
      }
      var k := ix[0];
      var card := cards[k];
      forgotStats := BumpForgotCount(forgotStats, today, card.id);
      Answer(k, Forgotten(card, now), sessionUnknown + {card.id}, now);
    }

    /** "I knew": the head of the queue goes one level up (at most five) and
        is due after that level's interval; it joins the session and leaves
        the unknown set. With an empty queue nothing happens. */
    method Knew(now: int)
      requires Valid()
      modifies this
      ensures Valid()
      ensures QueueIndices(old(cards), old(top10ModeOn), old(top10Set), now) == [] ==> unchanged(this)
      ensures var ix := QueueIndices(old(cards), old(top10ModeOn), old(top10Set), now);
        ix != [] ==>
          var k := ix[0];
          var id := old(cards)[k].id;
          cards == old(cards)[k := Known(old(cards)[k], now)]
          && forgotStats == old(forgotStats)
          && sessionAllIds == old(sessionAllIds) + [id]
          && sessionUnknown == old(sessionUnknown) - {id}
          && AfterAnswer(old(top10ModeOn), old(top10Set), now)
          && QueueIndices(cards, old(top10ModeOn), old(top10Set), now) == ix[1..]
    {
      var ix := QueueIndices(cards, top10ModeOn, top10Set, now);
      if |ix| == 0 {
        return;
      }
      var k := ix[0];
      var card := cards[k];
      Answer(k, Known(card, now), sessionUnknown - {card.id}, now);
    }

    /** The `forEach` loops that set `due = now` on the card
        `cards.find` returns for each id. */
    method PullDue(ids: set<CardId>, now: int)
      modifies this`cards
      ensures cards == PulledDue(old(cards), ids, now)
    {
      var rest := ids;
      ghost var done: set<CardId> := {};
      while rest != {}
        invariant rest + done == ids && rest !! done
        invariant cards == PulledDue(old(cards), done, now)
        decreases |rest|
      {
        var id :| id in rest;
        PulledDueStep(old(cards), done, id, now);
        match FindCard(cards, id) {
          case Some(k) =>
            cards := cards[k := cards[k].(due := now)];
          case None =>
        }
        rest := rest - {id};
        done := done + {id};
      }
    }

    /** "Repeat all (session)": once confirmed, every card answered in this
        session is due now and Top-10 mode is off. Nothing happens before
        the first answer or when the dialog is declined. */
    method RepeatAll(now: int, confirmed: bool)
      requires Valid()
      modifies this
      ensures Valid()
      ensures if sessionAllIds == [] || !confirmed then
          cards == old(cards) && showing == old(showing) && top10ModeOn == old(top10ModeOn) && top10Set == old(top10Set)
        else
          cards == PulledDue(old(cards), Elements(old(sessionAllIds)), now)
          && !top10ModeOn && top10Set == {} && !showing
      ensures sessionAllIds == old(sessionAllIds) && sessionUnknown == old(sessionUnknown)
      ensures forgotStats == old(forgotStats)
    {
      if |sessionAllIds| == 0 {
        return;
      }
      if !confirmed {
        return;
      }
      PullDue(Elements(sessionAllIds), now);
      PulledDueKeeps(old(cards), Elements(sessionAllIds), now);
      LeaveTop10Mode();
      var _ := UpdateUi(now);
    }

    /** "Repeat unknown": every card of the unknown set is due now and
        Top-10 mode is off. Nothing happens while the set is empty. */
    method RepeatUnknown(now: int)
      requires Valid()
      modifies this
      ensures Valid()
      ensures if sessionUnknown == {} then
          cards == old(cards) && showing == old(showing) && top10ModeOn == old(top10ModeOn) && top10Set == old(top10Set)
        else
          cards == PulledDue(old(cards), sessionUnknown, now)
          && !top10ModeOn && top10Set == {} && !showing
      ensures sessionAllIds == old(sessionAllIds) && sessionUnknown == old(sessionUnknown)
      ensures forgotStats == old(forgotStats)
    {
      if |sessionUnknown| == 0 {
        return;
      }
      PullDue(sessionUnknown, now);
      PulledDueKeeps(old(cards), sessionUnknown, now);
      LeaveTop10Mode();
      var _ := UpdateUi(now);
    }

    /** `getTop10ForgotIdsToday`: the ids of today's most-forgotten cards
        that still exist, most-forgotten first, at most ten. */
    method Top10ForgotIdsToday(today: DayKey) returns (ids: seq<CardId>)
      ensures ids == IdsOf(TopForgotten(DayOf(forgotStats, today), IdSet(cards)))
    {
      ids := TopForgottenIds(DayOf(forgotStats, today), IdSet(cards));
    }

    /** "Top 10 forgot (today)": with no ranked id nothing changes (the
        source shows an alert); otherwise Top-10 mode starts on the ranked
        ids, each of their cards is due now, and the mode has a card to
        show. */
    method Top10Forgot(now: int, today: DayKey)
      requires Valid()
      modifies this
      ensures Valid()
      ensures var ranked := IdsOf(TopForgotten(DayOf(old(forgotStats), today), IdSet(old(cards))));
        if ranked == [] then
          cards == old(cards) && showing == old(showing) && top10ModeOn == old(top10ModeOn) && top10Set == old(top10Set)
        else
          cards == PulledDue(old(cards), Elements(ranked), now)
          && top10ModeOn && top10Set == Elements(ranked) && !showing
          && QueueIndices(cards, top10ModeOn, top10Set, now) != []
      ensures sessionAllIds == old(sessionAllIds) && sessionUnknown == old(sessionUnknown)
      ensures forgotStats == old(forgotStats)
    {
      var ids := Top10ForgotIdsToday(today);
      if |ids| == 0 {
        return;
      }
      RankedIdsExist(DayOf(forgotStats, today), IdSet(cards));
      EnterTop10Mode(Elements(ids), now);
      var _ := UpdateUi(now);
    }

    /** The state change of "Top 10 forgot" once it has ranked ids: the mode
        is on for exactly those ids and each of their cards is due now, so
        the mode starts with a card to show. */
    method EnterTop10Mode(ids: set<CardId>, now: int)
      requires Valid()
      requires ids != {} && ids <= IdSet(cards)
      modifies this
      ensures Valid()
      ensures cards == PulledDue(old(cards), ids, now)
      ensures top10ModeOn && top10Set == ids && !showing
      ensures sessionAllIds == old(sessionAllIds) && sessionUnknown == old(sessionUnknown)
      ensures forgotStats == old(forgotStats)
      ensures QueueIndices(cards, top10ModeOn, top10Set, now) != []
    {
      top10ModeOn := true;
      top10Set := ids;
      showing := false;
      PulledQueueNonEmpty(cards, ids, now);
      PulledDueKeeps(cards, ids, now);
      PullDue(ids, now);
    }

    /** "Import": the chosen file's cards are appended, new and due now,
        and Top-10 mode is off. Nothing happens without a file. */
    method Import(now: int, file: Option<string>, freshId: nat -> CardId)
      requires Valid()
      modifies this
      ensures Valid()
      ensures if file.None? then
          cards == old(cards) && showing == old(showing) && top10ModeOn == old(top10ModeOn) && top10Set == old(top10Set)
        else
          cards == old(cards) + ParseText(file.value, now, freshId)
          && !top10ModeOn && top10Set == {} && !showing
      ensures sessionAllIds == old(sessionAllIds) && sessionUnknown == old(sessionUnknown)
      ensures forgotStats == old(forgotStats)
    {
      if file.None? {
        return;
      }
      var parsed := ParseText(file.value, now, freshId);
      LevelsInRangeAppend(cards, parsed);
      cards := cards + parsed;
      LeaveTop10Mode();
      var _ := UpdateUi(now);
    }

    /** `loadDefault`: with no cards yet and a successful fetch of the
        default word list, the cards become that list's cards; otherwise
        nothing changes. */
    method LoadDefault(now: int, fetched: Option<string>, freshId: nat -> CardId)
      requires Valid()
      modifies this
      ensures Valid()
      ensures if old(cards) == [] && fetched.Some? then
          cards == ParseText(fetched.value, now, freshId)
          && top10ModeOn == StaysOpen(cards, old(top10ModeOn), old(top10Set), now)
          && top10Set == (if top10ModeOn then old(top10Set) else {})
          && showing == (old(showing) && (top10ModeOn || !old(top10ModeOn)))
        else
          cards == old(cards) && showing == old(showing) && top10ModeOn == old(top10ModeOn) && top10Set == old(top10Set)
      ensures sessionAllIds == old(sessionAllIds) && sessionUnknown == old(sessionUnknown)
      ensures forgotStats == old(forgotStats)
    {
      if |cards| > 0 {
        return;
      }
      if fetched.None? {
        return;
      }
      var parsed := ParseText(fetched.value, now, freshId);
      ShowLoaded(parsed, now);
    }

    /** The successful end of `loadDefault`: the loaded cards replace the
        (empty) list and the page is redrawn. */
    method ShowLoaded(loaded: seq<Card>, now: int)
      requires Valid() && LevelsInRange(loaded)
      modifies this
      ensures Valid()
      ensures cards == loaded
      ensures top10ModeOn == StaysOpen(cards, old(top10ModeOn), old(top10Set), now)
      ensures top10Set == (if top10ModeOn then old(top10Set) else {})
      ensures showing == (old(showing) && (top10ModeOn || !old(top10ModeOn)))
      ensures sessionAllIds == old(sessionAllIds) && sessionUnknown == old(sessionUnknown)
      ensures forgotStats == old(forgotStats)
    {
      cards := loaded;
      var _ := UpdateUi(now);
    }

    /** "Clear": drops the cards and the session, switches Top-10 mode off,
        then loads the default word list again; the stored counts stay. */
    method Clear(now: int, fetched: Option<string>, freshId: nat -> CardId)
      requires Valid()
      modifies this
      ensures Valid()
      ensures cards == if fetched.Some? then ParseText(fetched.value, now, freshId) else []
      ensures sessionAllIds == [] && sessionUnknown == {}
      ensures !top10ModeOn && top10Set == {} && showing == old(showing)
      ensures forgotStats == old(forgotStats)
    {
      cards := [];
      sessionAllIds := [];
      sessionUnknown := {};
      top10ModeOn := false;
      top10Set := {};
      var _ := UpdateUi(now);
      LoadDefault(now, fetched, freshId);
    }
  }
}
