/** The repeat-until-good add-on of Anki/__init__.py: the persisted state maps a
    day (`YYYY-MM-DD`) to the cards answered that day and their Good and Easy
    counts. A card answered Again or Hard is shown again in the same session
    until it has been answered Good twice or Easy once that day. */
module Repeat {
  import opened Text

  /** The counters kept for one card on one day. */
  datatype Counts = Counts(good: nat, easy: nat)

  const GoodThreshold: nat := 2
  const EasyThreshold: nat := 1

  /** Anki's answer buttons. */
  const EaseAgain: int := 1
  const EaseHard: int := 2
  const EaseGood: int := 3
  const EaseEasy: int := 4

  /** `{"good": 0, "easy": 0}` */
  const Zero := Counts(0, 0)

  /** Day, then card key, then the card's counters. */
  type State = map<string, map<string, Counts>>

  // ---------------------------------------------------------------------------
  // Card keys: `str(card_id)`
  // ---------------------------------------------------------------------------

  /** The key a card id is stored under. */
  function CardKey(id: int): string {
    IntToString(id)
  }

  /** Distinct cards have distinct keys. */
  lemma CardKeyInjective(a: int, b: int)
    ensures CardKey(a) == CardKey(b) <==> a == b
  {
    if CardKey(a) == CardKey(b) {
      IntToStringInjective(a, b);
    }
  }

  // ---------------------------------------------------------------------------
  // The transitions, on values
  // ---------------------------------------------------------------------------

  /** Whether the state holds an entry for the card on the day. */
  predicate Has(s: State, day: string, key: string) {
    day in s && key in s[day]
  }

  /** `get_card_state`: the stored counters, `{0, 0}` when there is no entry. */
  function Stored(s: State, day: string, key: string): Counts {
    if Has(s, day, key) then s[day][key] else Zero
  }

  /** Good adds one to `good`, Easy one to `easy`; other answers change nothing. */
  function Bump(c: Counts, ease: int): Counts {
    if ease == EaseGood then c.(good := c.good + 1)
    else if ease == EaseEasy then c.(easy := c.easy + 1)
    else c
  }

  /** `increment_counter`: creates the day and the entry when missing, then bumps it. */
  function Incremented(s: State, day: string, key: string, ease: int): State {
    var dayMap := if day in s then s[day] else map[];
    s[day := dayMap[key := Bump(Stored(s, day, key), ease)]]
  }

  /** `clear_card_state`: removes the entry, leaving the day's map in place. */
  function Cleared(s: State, day: string, key: string): State {
    if Has(s, day, key) then s[day := s[day] - {key}] else s
  }

  predicate MetThreshold(c: Counts) {
    c.good >= GoodThreshold || c.easy >= EasyThreshold
  }

  /** The counter logic of `on_reviewer_did_answer_card`; `requeued` is whether the
      card could be put back into the reviewer's queue. */
  function Answered(s: State, day: string, key: string, ease: int, requeued: bool): State {
    if ease == EaseGood then
      var t := Incremented(s, day, key, ease);
      if MetThreshold(t[day][key]) then Cleared(t, day, key) else t
    else if ease == EaseEasy then
      var t := Incremented(s, day, key, ease);
      if t[day][key].easy >= EasyThreshold then Cleared(t, day, key) else t
    else if MetThreshold(Stored(s, day, key)) then Cleared(s, day, key)
    else if requeued then s
    else
      var dayMap := if day in s then s[day] else map[];
      s[day := dayMap[key := Stored(s, day, key)]]
  }

  /** `_cleanup_old`: every day but today is dropped. */
  function CleanedUp(s: State, today: string): State {
    if today in s then map[today := s[today]] else map[]
  }

  /** No entry has reached a threshold: every stored card is still to be repeated. */
  predicate Pending(s: State) {
    forall day, key :: day in s && key in s[day] ==> !MetThreshold(s[day][key])
  }

  // ---------------------------------------------------------------------------
  // What the transitions do
  // ---------------------------------------------------------------------------

  /** The entry exists afterwards with the answer counted, and every other entry
      and every day are kept. */
  lemma IncrementedSpec(s: State, day: string, key: string, ease: int)
    ensures var r := Incremented(s, day, key, ease);
      && Has(r, day, key)
      && r[day][key].good == Stored(s, day, key).good + (if ease == EaseGood then 1 else 0)
      && r[day][key].easy == Stored(s, day, key).easy + (if ease == EaseEasy then 1 else 0)
      && r.Keys == s.Keys + {day}
      && forall d, k :: (d != day || k != key) ==> (Has(r, d, k) <==> Has(s, d, k)) && Stored(r, d, k) == Stored(s, d, k)
  {
  }

  /** Only the card's entry for the day goes; nothing else changes, and with no
      such entry nothing changes at all. */
  lemma ClearedSpec(s: State, day: string, key: string)
    ensures var r := Cleared(s, day, key);
      && !Has(r, day, key)
      && r.Keys == s.Keys
      && (!Has(s, day, key) ==> r == s)
      && forall d, k :: (d != day || k != key) ==> (Has(r, d, k) <==> Has(s, d, k)) && Stored(r, d, k) == Stored(s, d, k)
  {
  }

  /** An answer only ever touches the answered card's entry for the day. */
  lemma AnsweredOthersKept(s: State, day: string, key: string, ease: int, requeued: bool, d: string, k: string)
    requires d != day || k != key
    ensures var r := Answered(s, day, key, ease, requeued);
      (Has(r, d, k) <==> Has(s, d, k)) && Stored(r, d, k) == Stored(s, d, k)
  {
    IncrementedSpec(s, day, key, ease);
    ClearedSpec(s, day, key);
    ClearedSpec(Incremented(s, day, key, ease), day, key);
  }

  /** After Easy the entry is always gone. */
  lemma EasyClears(s: State, day: string, key: string, requeued: bool)
    ensures !Has(Answered(s, day, key, EaseEasy, requeued), day, key)
  {
    IncrementedSpec(s, day, key, EaseEasy);
    ClearedSpec(Incremented(s, day, key, EaseEasy), day, key);
  }

  /** After Good the entry stays, counted, exactly when no threshold is met yet. */
  lemma GoodCounts(s: State, day: string, key: string, requeued: bool)
    ensures var r := Answered(s, day, key, EaseGood, requeued);
      var c := Stored(s, day, key);
      && (Has(r, day, key) <==> c.good + 1 < GoodThreshold && c.easy < EasyThreshold)
      && (Has(r, day, key) ==> r[day][key] == Counts(c.good + 1, c.easy))
  {
    IncrementedSpec(s, day, key, EaseGood);
    ClearedSpec(Incremented(s, day, key, EaseGood), day, key);
  }

  /** Two Goods on one day, starting without an entry, leave no entry. */
  lemma TwoGoodsClear(s: State, day: string, key: string, first: bool, second: bool)
    requires !Has(s, day, key)
    ensures !Has(Answered(Answered(s, day, key, EaseGood, first), day, key, EaseGood, second), day, key)
  {
    var t := Answered(s, day, key, EaseGood, first);
    GoodCounts(s, day, key, first);
    assert Has(t, day, key) && t[day][key] == Counts(1, 0);
    GoodCounts(t, day, key, second);
  }

  /** Again and Hard never change a counter. An entry that has met a threshold is
      cleared; otherwise a requeued card leaves the state as it was, and one that
      could not be requeued gets an entry holding the counters it had. */
  lemma AgainKeepsCounts(s: State, day: string, key: string, ease: int, requeued: bool)
    requires ease != EaseGood && ease != EaseEasy
    ensures var r := Answered(s, day, key, ease, requeued);
      && (forall d, k :: Has(r, d, k) ==> Stored(r, d, k) == Stored(s, d, k))
      && (MetThreshold(Stored(s, day, key)) ==> !Has(r, day, key))
      && (!MetThreshold(Stored(s, day, key)) && requeued ==> r == s)
      && (!MetThreshold(Stored(s, day, key)) && !requeued ==> Has(r, day, key) && r[day][key] == Stored(s, day, key))
  {
    var r := Answered(s, day, key, ease, requeued);
    ClearedSpec(s, day, key);
    forall d, k | Has(r, d, k)
      ensures Stored(r, d, k) == Stored(s, d, k)
    {
      if d != day || k != key {
        AnsweredOthersKept(s, day, key, ease, requeued, d, k);
      }
    }
  }

  /** Under the add-on's own answers, no stored entry ever reaches a threshold:
      reaching one clears the entry. */
  lemma AnsweredPending(s: State, day: string, key: string, ease: int, requeued: bool)
    requires Pending(s)
    ensures Pending(Answered(s, day, key, ease, requeued))
  {
    var r := Answered(s, day, key, ease, requeued);
    forall d, k | d in r && k in r[d]
      ensures !MetThreshold(r[d][k])
    {
      if d != day || k != key {
        AnsweredOthersKept(s, day, key, ease, requeued, d, k);
      } else if ease == EaseGood {
        GoodCounts(s, day, key, requeued);
      } else if ease == EaseEasy {
        EasyClears(s, day, key, requeued);
      } else {
        AgainKeepsCounts(s, day, key, ease, requeued);
      }
    }
  }

  /** With every entry pending, a Good clears the entry exactly when the card had
      already been answered Good that day. */
  lemma GoodClearsSecond(s: State, day: string, key: string, requeued: bool)
    requires Pending(s)
    ensures !Has(Answered(s, day, key, EaseGood, requeued), day, key) <==> Stored(s, day, key).good >= 1
  {
    GoodCounts(s, day, key, requeued);
  }

  /** After cleanup only today's entries remain, unchanged. */
  lemma CleanedUpSpec(s: State, today: string)
    ensures var r := CleanedUp(s, today);
      && r.Keys <= {today}
      && (today in s <==> today in r)
      && (today in s ==> r[today] == s[today])
      && (Pending(s) ==> Pending(r))
  {
  }

  // ---------------------------------------------------------------------------
  // The persisted state
  // ---------------------------------------------------------------------------

  /** The add-on's state file. Each hook reads the day from the clock; here the
      day is passed in. */
  class ReviewState {
    var state: State

    /** `load_state`: the saved state, `{}` when there is none. */
    constructor(saved: State)
      ensures state == saved
    {
      state := saved;
    }

    method IncrementCounter(today: string, cardId: int, ease: int) returns (counts: Counts)
      modifies this
      ensures state == Incremented(old(state), today, CardKey(cardId), ease)
      ensures counts == Bump(Stored(old(state), today, CardKey(cardId)), ease)
    {
      var key := CardKey(cardId);
      var dayMap := if today in state then state[today] else map[];
      counts := if key in dayMap then dayMap[key] else Zero;
      if ease == EaseGood {
        counts := counts.(good := counts.good + 1);
      } else if ease == EaseEasy {
        counts := counts.(easy := counts.easy + 1);
      }
      state := state[today := dayMap[key := counts]];
    }

    method ClearCardState(today: string, cardId: int)
      modifies this
      ensures state == Cleared(old(state), today, CardKey(cardId))
    {
      var key := CardKey(cardId);
      if today in state && key in state[today] {
        state := state[today := state[today] - {key}];
      }
    }

    method GetCardState(today: string, cardId: int) returns (counts: Counts)
      ensures counts == Stored(state, today, CardKey(cardId))
      ensures counts == Zero <==> !Has(state, today, CardKey(cardId)) || state[today][CardKey(cardId)] == Zero
    {
      var key := CardKey(cardId);
      if today in state && key in state[today] {
        counts := state[today][key];
      } else {
        counts := Zero;
      }
    }

    method OnAnswer(today: string, cardId: int, ease: int, requeued: bool)
      modifies this
      ensures state == Answered(old(state), today, CardKey(cardId), ease, requeued)
    {
      var key := CardKey(cardId);
      if ease == EaseGood {
        var counts := IncrementCounter(today, cardId, ease);
        if counts.good >= GoodThreshold || counts.easy >= EasyThreshold {
          ClearCardState(today, cardId);
        }
        return;
      } else if ease == EaseEasy {
        var counts := IncrementCounter(today, cardId, ease);
        if counts.easy >= EasyThreshold {
          ClearCardState(today, cardId);
        }
        return;
      }
      var counts := GetCardState(today, cardId);
      if counts.good >= GoodThreshold || counts.easy >= EasyThreshold {
        ClearCardState(today, cardId);
        return;
      }
      if !requeued {
        var dayMap := if today in state then state[today] else map[];
        var kept := if key in dayMap then dayMap[key] else Zero;
        state := state[today := dayMap[key := kept]];
      }
    }

    method CleanupOld(today: string)
      modifies this
      ensures state == CleanedUp(old(state), today)
    {
      var keys := state.Keys;
      while keys != {}
        invariant keys <= old(state).Keys
        invariant forall d :: d in state <==> d in old(state) && (d == today || d in keys)
        invariant forall d :: d in state ==> state[d] == old(state)[d]
        decreases |keys|
      {
        var k :| k in keys;
        if k != today {
          state := state - {k};
        }
        keys := keys - {k};
      }
    }
  }
}
