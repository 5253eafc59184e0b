/** A session of the application: the user gestures the interface turns
    into calls of the state core, applied one after another. */
module Session {
  import opened Options
  import opened Text
  import opened Types
  import opened Seqs
  import opened App

  /** One user gesture, with the environment's answers (clock readings,
      `prompt` result, `confirm` result) attached. A date click carries the
      two readings its handler takes, one for the to-do id and one for the
      event id. */
  datatype Action =
    | KeyDown(key: string, input: string, date: string, tag: TagOption, now: nat)
    | DateClick(title: Option<string>, date: string, tag: TagOption, todoClock: nat, eventClock: nat)
    | EventClick(id: string, confirmed: bool)
    | DeleteClick(id: string)

  /** One gesture: a key press in the input box, a date click, a click on a
      calendar event (deleting only when `confirm` says yes), or the list's
      delete button. */
  function Step(s: State, a: Action): (r: State)
    ensures a.EventClick? && !a.confirmed ==> r == s
    ensures (a.EventClick? && a.confirmed) || a.DeleteClick? ==>
      && IsSubseq(r.todos, s.todos) && IsSubseq(r.events, s.events)
      && (forall i :: 0 <= i < |r.todos| ==> r.todos[i].id != a.id)
      && (forall i :: 0 <= i < |r.events| ==> r.events[i].id != a.id)
      && |s.todos| - |r.todos| == CountIf(s.todos, TodoIdIs(a.id))
      && |s.events| - |r.events| == CountIf(s.events, EventIdIs(a.id))
    ensures a.KeyDown? ==>
      && (r != s <==> a.key == "Enter" && !IsBlank(a.input))
      && (r != s ==> Appends(s, r)
                     && r.todos[|s.todos|] == TodoItem(IdOf(a.now), a.input, false, a.tag.name, a.tag.color, a.date)
                     && Mirrors(r.todos[|s.todos|], r.events[|s.events|]))
    ensures a.DateClick? ==>
      && (r != s <==> AcceptsTitle(a.title))
      && (r != s ==> Appends(s, r)
                     && r.todos[|s.todos|] == TodoItem(IdOf(a.todoClock), a.title.value, false, a.tag.name, a.tag.color, a.date)
                     && r.events[|s.events|] == Project(r.todos[|s.todos|]).(id := IdOf(a.eventClock)))
  {
    match a
    case KeyDown(key, input, date, tag, now) => HandleAddTodo(s, key, input, date, tag, now).0
    case DateClick(title, date, tag, todoClock, eventClock) => HandleDateClick(s, title, date, tag, todoClock, eventClock)
    case EventClick(id, confirmed) => if confirmed then DeleteTodo(s, id) else s
    case DeleteClick(id) => DeleteTodo(s, id)
  }

  /** A gesture's clock readings agree wherever they matter: it is not a
      date click that appends, or its two readings are equal. */
  predicate ReadingsAgree(a: Action)
  {
    a.DateClick? && AcceptsTitle(a.title) ==> a.todoClock == a.eventClock
  }

  /** The gestures in order. */
  function Run(s: State, actions: seq<Action>): State
    decreases |actions|
  {
    if actions == [] then s else Run(Step(s, actions[0]), actions[1..])
  }

  /** From paired arrays, a gesture leaves them paired exactly when its
      clock readings agree: key presses and deletions always do, a date
      click that appends does only when its two readings are equal. */
  lemma StepPreservesPairing(s: State, a: Action)
    requires Paired(s)
    ensures Paired(Step(s, a)) <==> ReadingsAgree(a)
  {
    match a
    case KeyDown(key, input, date, tag, now) =>
      KeyboardAddPreservesPairing(s, key, input, date, tag, now);
    case DateClick(title, date, tag, todoClock, eventClock) =>
      if AcceptsTitle(title) {
        DateClickPairedIffSameClock(s, title, date, tag, todoClock, eventClock);
      }
    case EventClick(id, confirmed) =>
      DeletePreservesPairing(s, id);
    case DeleteClick(id) =>
      DeletePreservesPairing(s, id);
  }

  /** Any session that starts paired, and whose date clicks read the clock
      the same twice, stays paired. */
  lemma {:induction false} RunPreservesPairing(s: State, actions: seq<Action>)
    requires Paired(s)
    requires forall k :: 0 <= k < |actions| ==> ReadingsAgree(actions[k])
    ensures Paired(Run(s, actions))
    decreases |actions|
  {
    if actions != [] {
      StepPreservesPairing(s, actions[0]);
      RunPreservesPairing(Step(s, actions[0]), actions[1..]);
    }
  }

  /** The tag a gesture brings in, if any, is one of the presets (the tag
      selector only offers presets). */
  predicate UsesPresetTag(a: Action)
  {
    match a
    case KeyDown(_, _, _, tag, _) => tag in TAG_OPTIONS
    case DateClick(_, _, tag, _, _) => tag in TAG_OPTIONS
    case _ => true
  }

  /** A gesture that uses a preset tag keeps every to-do's and every
      event's tag a preset. */
  lemma StepKeepsPresetTags(s: State, a: Action)
    requires PresetTagged(s)
    requires UsesPresetTag(a)
    ensures PresetTagged(Step(s, a))
  {
    var r := Step(s, a);
    var n := |s.todos|;
    var m := |s.events|;
    forall i | 0 <= i < |r.todos|
      ensures TagOption(r.todos[i].tag, r.todos[i].color) in TAG_OPTIONS
    {
      if a.KeyDown? || a.DateClick? {
        if r != s && i < n {
          assert r.todos[i] == r.todos[..n][i];
          assert s.todos[i] in s.todos;
        }
      } else if a.EventClick? && !a.confirmed {
        assert s.todos[i] in s.todos;
      } else {
        SubseqContains(r.todos, s.todos, i);
      }
    }
    forall i | 0 <= i < |r.events|
      ensures TagOption(r.events[i].extendedProps.tag, r.events[i].backgroundColor) in TAG_OPTIONS
    {
      if a.KeyDown? || a.DateClick? {
        if r != s && i < m {
          assert r.events[i] == r.events[..m][i];
          assert s.events[i] in s.events;
        }
      } else if a.EventClick? && !a.confirmed {
        assert s.events[i] in s.events;
      } else {
        SubseqContains(r.events, s.events, i);
      }
    }
  }

  /** Every to-do and event of a session whose gestures use preset tags
      carries a preset tag, so a filter outside the presets shows nothing. */
  lemma {:induction false} RunKeepsPresetTags(s: State, actions: seq<Action>)
    requires PresetTagged(s)
    requires forall k :: 0 <= k < |actions| ==> UsesPresetTag(actions[k])
    ensures PresetTagged(Run(s, actions))
    decreases |actions|
  {
    if actions != [] {
      StepKeepsPresetTags(s, actions[0]);
      RunKeepsPresetTags(Step(s, actions[0]), actions[1..]);
    }
  }
}
