/** The to-do / calendar state core of `src/App.tsx`: two parallel arrays,
    the to-do list and the calendar events, changed by the keyboard and
    date-click handlers and by deletion, and shown through a tag filter.
    React state updates become pure functions from the old arrays to the new
    ones; clock readings and the `prompt` answer are parameters. */
module App {
  import opened Options
  import opened Seqs
  import opened Text
  import opened Types

  /** The `todos` and `events` arrays. */
  datatype State = State(todos: seq<TodoItem>, events: seq<CalendarEvent>)

  /** The filter value that shows every entry. */
  const ALL: string := "all"

  /** The id a handler derives from a clock reading: `String(Date.now())`. */
  function IdOf(now: nat): (id: string)
    ensures forall other: nat :: NatToDecimal(other) == id <==> other == now
  {
    NatToDecimal(now)
  }

  /** The calendar event that shows to-do `t`. */
  function Project(t: TodoItem): CalendarEvent
  {
    CalendarEvent(t.id, t.text, t.date, t.color, t.color, ExtendedProps(t.tag))
  }

  /** Event `e` mirrors to-do `t`: same id, title, date, tag, and the tag
      colour as both background and border. */
  predicate Mirrors(t: TodoItem, e: CalendarEvent)
  {
    && e.id == t.id
    && e.title == t.text
    && e.start == t.date
    && e.backgroundColor == t.color
    && e.borderColor == t.color
    && e.extendedProps.tag == t.tag
  }

  /** The pairing invariant: equally long arrays whose events mirror the
      to-dos position by position. */
  predicate Paired(s: State)
  {
    |s.todos| == |s.events| && forall i :: 0 <= i < |s.todos| ==> Mirrors(s.todos[i], s.events[i])
  }

  /** The arrays are paired exactly when the events are the projection of
      the to-dos. */
  lemma PairedIsProjection(s: State)
    ensures Paired(s) <==> s.events == Map(Project, s.todos)
  {
    if Paired(s) {
      forall i | 0 <= i < |s.todos|
        ensures s.events[i] == Project(s.todos[i])
      {
        assert s.events[i].extendedProps == ExtendedProps(s.todos[i].tag);
      }
    }
  }

  /** Ids occur at most once in the to-do list. */
  ghost predicate UniqueIds(todos: seq<TodoItem>)
  {
    forall i, j :: 0 <= i < j < |todos| ==> todos[i].id != todos[j].id
  }

  /** `r` is `s` with exactly one to-do and one event appended at the end. */
  ghost predicate Appends(s: State, r: State)
  {
    && |r.todos| == |s.todos| + 1 && r.todos[..|s.todos|] == s.todos
    && |r.events| == |s.events| + 1 && r.events[..|s.events|] == s.events
  }

  function NewTodo(id: string, text: string, tag: TagOption, date: string): TodoItem
  {
    TodoItem(id, text, false, tag.name, tag.color, date)
  }

  function NewEvent(id: string, title: string, tag: TagOption, date: string): CalendarEvent
  {
    CalendarEvent(id, title, date, tag.color, tag.color, ExtendedProps(tag.name))
  }

  /** `handleAddTodo`: on `Enter` with text that is not blank, append a to-do
      and its event under one id taken from clock reading `now`, and clear the
      input (the second component). The untrimmed text is stored. Any other
      key, or blank text, changes nothing. */
  function HandleAddTodo(s: State, key: string, input: string, date: string, tag: TagOption, now: nat): (r: (State, string))
    ensures key != "Enter" || IsBlank(input) ==> r == (s, input)
    ensures key == "Enter" && !IsBlank(input) ==>
      && r.1 == ""
      && Appends(s, r.0)
      && var t := r.0.todos[|s.todos|];
         var e := r.0.events[|s.events|];
         && t.id == IdOf(now) && e.id == t.id
         && t.text == input && !t.completed
         && t.tag == tag.name && t.color == tag.color && t.date == date
         && Mirrors(t, e)
  {
    if key == "Enter" && Trim(input) != [] then
      var id := IdOf(now);
      (State(s.todos + [NewTodo(id, input, tag, date)], s.events + [NewEvent(id, input, tag, date)]), "")
    else
      (s, input)
  }

  /** The date-click handler accepts a `prompt` answer when it is present and
      non-empty; it does not trim. */
  predicate AcceptsTitle(title: Option<string>)
  {
    title.Some? && title.value != ""
  }

  /** `handleDateClick` as written: the to-do id and the event id come from
      two separate clock readings, `todoClock` and `eventClock`. */
  function HandleDateClick(s: State, title: Option<string>, date: string, tag: TagOption, todoClock: nat, eventClock: nat): (r: State)
    ensures !AcceptsTitle(title) ==> r == s
    ensures AcceptsTitle(title) ==>
      && Appends(s, r)
      && var t := r.todos[|s.todos|];
         var e := r.events[|s.events|];
         && t.id == IdOf(todoClock) && e.id == IdOf(eventClock)
         && t.text == title.value && e.title == title.value && !t.completed
         && t.tag == tag.name && e.extendedProps.tag == tag.name
         && t.color == tag.color && e.backgroundColor == tag.color && e.borderColor == tag.color
         && t.date == date && e.start == date
  {
    match title
    case Some(text) =>
      if text != "" then
        State(s.todos + [NewTodo(IdOf(todoClock), text, tag, date)],
              s.events + [NewEvent(IdOf(eventClock), text, tag, date)])
      else s
    case None => s
  }

  /** `handleDateClick` with a single clock reading shared by the to-do and
      the event, as `handleAddTodo` does. It keeps the pairing invariant. */
  function HandleDateClickOneRead(s: State, title: Option<string>, date: string, tag: TagOption, now: nat): (r: State)
    ensures !AcceptsTitle(title) ==> r == s
    ensures AcceptsTitle(title) ==>
      && Appends(s, r)
      && var t := r.todos[|s.todos|];
         && t.id == IdOf(now) && t.text == title.value && !t.completed
         && t.tag == tag.name && t.color == tag.color && t.date == date
         && Mirrors(t, r.events[|s.events|])
    ensures Paired(s) ==> Paired(r)
  {
    if AcceptsTitle(title) then
      var id := IdOf(now);
      State(s.todos + [NewTodo(id, title.value, tag, date)], s.events + [NewEvent(id, title.value, tag, date)])
    else
      s
  }

  function TodoIdIs(id: string): TodoItem -> bool
  {
    (t: TodoItem) => t.id == id
  }

  function TodoIdIsNot(id: string): TodoItem -> bool
  {
    (t: TodoItem) => t.id != id
  }

  function EventIdIs(id: string): CalendarEvent -> bool
  {
    (e: CalendarEvent) => e.id == id
  }

  function EventIdIsNot(id: string): CalendarEvent -> bool
  {
    (e: CalendarEvent) => e.id != id
  }

  /** `deleteTodo`: both arrays lose every entry with this id and keep every
      other entry, in order. */
  function DeleteTodo(s: State, id: string): (r: State)
    ensures IsSubseq(r.todos, s.todos) && IsSubseq(r.events, s.events)
    ensures forall i :: 0 <= i < |r.todos| ==> r.todos[i].id != id
    ensures forall i :: 0 <= i < |r.events| ==> r.events[i].id != id
    ensures |s.todos| - |r.todos| == CountIf(s.todos, TodoIdIs(id))
    ensures |s.events| - |r.events| == CountIf(s.events, EventIdIs(id))
  {
    CountIfComplement(s.todos, TodoIdIs(id), TodoIdIsNot(id));
    CountIfComplement(s.events, EventIdIs(id), EventIdIsNot(id));
    State(Keep(s.todos, TodoIdIsNot(id)), Keep(s.events, EventIdIsNot(id)))
  }

  function TodoTagIs(tag: string): TodoItem -> bool
  {
    (t: TodoItem) => t.tag == tag
  }

  function EventTagIs(tag: string): CalendarEvent -> bool
  {
    (e: CalendarEvent) => e.extendedProps.tag == tag
  }

  /** `filteredTodos`: everything under `ALL`, otherwise exactly the to-dos
      with that tag, in order. */
  function FilteredTodos(todos: seq<TodoItem>, filter: string): (r: seq<TodoItem>)
    ensures IsSubseq(r, todos)
    ensures filter == ALL ==> r == todos
    ensures filter != ALL ==>
      && (forall i :: 0 <= i < |r| ==> r[i].tag == filter)
      && (forall i :: 0 <= i < |todos| && todos[i].tag == filter ==> todos[i] in r)
      && |r| == CountIf(todos, TodoTagIs(filter))
  {
    if filter == ALL then
      SubseqReflexive(todos);
      todos
    else
      Keep(todos, TodoTagIs(filter))
  }

  /** `filteredEvents`: the same filter on the events' nested tag. */
  function FilteredEvents(events: seq<CalendarEvent>, filter: string): (r: seq<CalendarEvent>)
    ensures IsSubseq(r, events)
    ensures filter == ALL ==> r == events
    ensures filter != ALL ==>
      && (forall i :: 0 <= i < |r| ==> r[i].extendedProps.tag == filter)
      && (forall i :: 0 <= i < |events| && events[i].extendedProps.tag == filter ==> events[i] in r)
      && |r| == CountIf(events, EventTagIs(filter))
  {
    if filter == ALL then
      SubseqReflexive(events);
      events
    else
      Keep(events, EventTagIs(filter))
  }

  // ---------------------------------------------------------------------
  // Adding

  /** Keyboard add keeps the arrays paired. */
  lemma KeyboardAddPreservesPairing(s: State, key: string, input: string, date: string, tag: TagOption, now: nat)
    requires Paired(s)
    ensures Paired(HandleAddTodo(s, key, input, date, tag, now).0)
  {
    var r := HandleAddTodo(s, key, input, date, tag, now).0;
    if r != s {
      forall i | 0 <= i < |r.todos|
        ensures Mirrors(r.todos[i], r.events[i])
      {
        if i < |s.todos| {
          assert r.todos[i] == r.todos[..|s.todos|][i];
          assert r.events[i] == r.events[..|s.events|][i];
        }
      }
    }
  }

  /** With unique ids before, keyboard add keeps them unique exactly when the
      clock reading is not already in use as an id. */
  lemma KeyboardAddUniqueIffFresh(s: State, key: string, input: string, date: string, tag: TagOption, now: nat)
    requires UniqueIds(s.todos)
    requires key == "Enter" && !IsBlank(input)
    ensures UniqueIds(HandleAddTodo(s, key, input, date, tag, now).0.todos)
        <==> forall i :: 0 <= i < |s.todos| ==> s.todos[i].id != IdOf(now)
  {
    var r := HandleAddTodo(s, key, input, date, tag, now).0;
    var n := |s.todos|;
    assert forall i :: 0 <= i < n ==> r.todos[i] == r.todos[..n][i];
    if UniqueIds(r.todos) {
      forall i | 0 <= i < n
        ensures s.todos[i].id != IdOf(now)
      {
        assert r.todos[i].id != r.todos[n].id;
      }
    }
  }

  /** With unique ids before, an accepted date click keeps them unique
      exactly when the to-do's clock reading is not already in use as an id. */
  lemma DateClickUniqueIffFresh(s: State, title: Option<string>, date: string, tag: TagOption, todoClock: nat, eventClock: nat)
    requires UniqueIds(s.todos)
    requires AcceptsTitle(title)
    ensures UniqueIds(HandleDateClick(s, title, date, tag, todoClock, eventClock).todos)
        <==> forall i :: 0 <= i < |s.todos| ==> s.todos[i].id != IdOf(todoClock)
  {
    var r := HandleDateClick(s, title, date, tag, todoClock, eventClock);
    var n := |s.todos|;
    assert forall i :: 0 <= i < n ==> r.todos[i] == r.todos[..n][i];
    if UniqueIds(r.todos) {
      forall i | 0 <= i < n
        ensures s.todos[i].id != IdOf(todoClock)
      {
        assert r.todos[i].id != r.todos[n].id;
      }
    }
  }

  /** As written, a date click keeps the arrays paired exactly when its two
      clock readings agree. */
  lemma DateClickPairedIffSameClock(s: State, title: Option<string>, date: string, tag: TagOption, todoClock: nat, eventClock: nat)
    requires Paired(s)
    requires AcceptsTitle(title)
    ensures Paired(HandleDateClick(s, title, date, tag, todoClock, eventClock)) <==> todoClock == eventClock
  {
    var r := HandleDateClick(s, title, date, tag, todoClock, eventClock);
    var n := |s.todos|;
    if todoClock == eventClock {
      forall i | 0 <= i < |r.todos|
        ensures Mirrors(r.todos[i], r.events[i])
      {
        if i < n {
          assert r.todos[i] == r.todos[..n][i];
          assert r.events[i] == r.events[..n][i];
        }
      }
    } else {
      assert r.todos[n].id != r.events[n].id;
    }
  }

  /** The corrected handler is the as-written one whenever both clock
      readings agree. */
  lemma DateClickOneReadAgrees(s: State, title: Option<string>, date: string, tag: TagOption, now: nat)
    ensures HandleDateClick(s, title, date, tag, now, now) == HandleDateClickOneRead(s, title, date, tag, now)
  {
  }

  /** The keyboard path trims, the date-click path does not: any non-empty
      text made only of whitespace is refused by the first and accepted by
      the second. */
  lemma BlankTextOnlyAcceptedByDateClick(s: State, text: string, date: string, tag: TagOption, todoClock: nat, eventClock: nat)
    requires IsBlank(text) && text != ""
    ensures HandleAddTodo(s, "Enter", text, date, tag, todoClock) == (s, text)
    ensures |HandleDateClick(s, Some(text), date, tag, todoClock, eventClock).todos| == |s.todos| + 1
  {
  }

  /** Finding: two clock readings that straddle a millisecond leave an event
      whose id no to-do has; deleting the to-do from the list then leaves
      the event on the calendar. */
  lemma TwoReadsLeaveOrphanEvent()
    ensures var s := HandleDateClick(State([], []), Some("Buy milk"), "2024-05-01", TAG_OPTIONS[0], 1000, 1001);
            && !Paired(s)
            && DeleteTodo(s, IdOf(1000)).todos == []
            && |DeleteTodo(s, IdOf(1000)).events| == 1
  {
    var s := HandleDateClick(State([], []), Some("Buy milk"), "2024-05-01", TAG_OPTIONS[0], 1000, 1001);
    assert s.events[0].id != IdOf(1000);
    assert s.events[0] in DeleteTodo(s, IdOf(1000)).events;
  }

  // ---------------------------------------------------------------------
  // Deleting

  /** Deletion keeps every entry that does not carry the id. */
  lemma DeleteKeepsOtherEntries(s: State, id: string)
    ensures forall i :: 0 <= i < |s.todos| && s.todos[i].id != id ==> s.todos[i] in DeleteTodo(s, id).todos
    ensures forall i :: 0 <= i < |s.events| && s.events[i].id != id ==> s.events[i] in DeleteTodo(s, id).events
  {
  }

  /** Deleting an id nobody has changes nothing. */
  lemma DeleteAbsentIsNoOp(s: State, id: string)
    requires forall i :: 0 <= i < |s.todos| ==> s.todos[i].id != id
    requires forall i :: 0 <= i < |s.events| ==> s.events[i].id != id
    ensures DeleteTodo(s, id) == s
  {
    KeepAll(s.todos, TodoIdIsNot(id));
    KeepAll(s.events, EventIdIsNot(id));
  }

  /** Deleting the same id twice is deleting it once. */
  lemma DeleteIdempotent(s: State, id: string)
    ensures DeleteTodo(DeleteTodo(s, id), id) == DeleteTodo(s, id)
  {
    DeleteAbsentIsNoOp(DeleteTodo(s, id), id);
  }

  /** Deletion removes nothing but entries with that id and keeps the rest
      in order: any subsequence of the to-dos (of the events) that avoids
      the id and is as long as the number of to-dos (events) without it is
      the result of deleting. */
  lemma DeleteIsTheOnlySuchSubsequence(s: State, id: string, todos: seq<TodoItem>, events: seq<CalendarEvent>)
    requires IsSubseq(todos, s.todos)
    requires forall i :: 0 <= i < |todos| ==> todos[i].id != id
    requires |s.todos| - |todos| == CountIf(s.todos, TodoIdIs(id))
    requires IsSubseq(events, s.events)
    requires forall i :: 0 <= i < |events| ==> events[i].id != id
    requires |s.events| - |events| == CountIf(s.events, EventIdIs(id))
    ensures todos == DeleteTodo(s, id).todos
    ensures events == DeleteTodo(s, id).events
  {
    CountIfComplement(s.todos, TodoIdIs(id), TodoIdIsNot(id));
    KeepIsUnique(todos, s.todos, TodoIdIsNot(id));
    CountIfComplement(s.events, EventIdIs(id), EventIdIsNot(id));
    KeepIsUnique(events, s.events, EventIdIsNot(id));
  }

  /** Deletion keeps the arrays paired. */
  lemma DeletePreservesPairing(s: State, id: string)
    requires Paired(s)
    ensures Paired(DeleteTodo(s, id))
  {
    PairedIsProjection(s);
    KeepCommutesWithMap(s.todos, Project, TodoIdIsNot(id), EventIdIsNot(id));
    PairedIsProjection(DeleteTodo(s, id));
  }

  /** Deletion keeps ids unique. */
  lemma DeleteKeepsIdsUnique(s: State, id: string)
    requires UniqueIds(s.todos)
    ensures UniqueIds(DeleteTodo(s, id).todos)
  {
    var key := (t: TodoItem) => t.id;
    assert DistinctBy(s.todos, key);
    KeepKeepsDistinct(s.todos, TodoIdIsNot(id), key);
  }

  // ---------------------------------------------------------------------
  // Filtering

  /** Filtering paired arrays with one filter gives paired views: the list
      and the calendar show the same entries. */
  lemma FilteredViewsPaired(s: State, filter: string)
    requires Paired(s)
    ensures Paired(State(FilteredTodos(s.todos, filter), FilteredEvents(s.events, filter)))
  {
    if filter != ALL {
      PairedIsProjection(s);
      KeepCommutesWithMap(s.todos, Project, TodoTagIs(filter), EventTagIs(filter));
      PairedIsProjection(State(FilteredTodos(s.todos, filter), FilteredEvents(s.events, filter)));
    }
  }

  /** Every to-do carries one of the tag presets. */
  ghost predicate TagsFromPresets(todos: seq<TodoItem>)
  {
    forall t :: t in todos ==> TagOption(t.tag, t.color) in TAG_OPTIONS
  }

  /** Every event carries one of the tag presets: its nested tag is the
      preset's name and its background the preset's colour. */
  ghost predicate EventTagsFromPresets(events: seq<CalendarEvent>)
  {
    forall e :: e in events ==> TagOption(e.extendedProps.tag, e.backgroundColor) in TAG_OPTIONS
  }

  /** Both arrays carry preset tags only; paired or not. */
  ghost predicate PresetTagged(s: State)
  {
    TagsFromPresets(s.todos) && EventTagsFromPresets(s.events)
  }

  /** A filter that is neither `ALL` nor a preset name is not an error; it
      shows two empty views, whether or not the arrays are paired. */
  lemma UnknownFilterShowsNothing(s: State, filter: string)
    requires PresetTagged(s)
    requires filter != ALL
    requires forall k :: 0 <= k < |TAG_OPTIONS| ==> TAG_OPTIONS[k].name != filter
    ensures FilteredTodos(s.todos, filter) == []
    ensures FilteredEvents(s.events, filter) == []
  {
    forall i | 0 <= i < |s.todos|
      ensures !TodoTagIs(filter)(s.todos[i])
    {
      assert s.todos[i] in s.todos;
      assert TagOption(s.todos[i].tag, s.todos[i].color) in TAG_OPTIONS;
    }
    KeepNone(s.todos, TodoTagIs(filter));
    forall i | 0 <= i < |s.events|
      ensures !EventTagIs(filter)(s.events[i])
    {
      assert s.events[i] in s.events;
      assert TagOption(s.events[i].extendedProps.tag, s.events[i].backgroundColor) in TAG_OPTIONS;
    }
    KeepNone(s.events, EventTagIs(filter));
  }

  /** The as-written date click with readings that straddle a millisecond
      reaches arrays that are preset-tagged but not paired. */
  lemma ReachableUnpairedPresetTagged()
    ensures var s := HandleDateClick(State([], []), Some("Buy milk"), "2024-05-01", TAG_OPTIONS[0], 1000, 1001);
            !Paired(s) && PresetTagged(s)
  {
    var s := HandleDateClick(State([], []), Some("Buy milk"), "2024-05-01", TAG_OPTIONS[0], 1000, 1001);
    assert s.todos[0].id != s.events[0].id;
    assert s.todos == [s.todos[0]] && s.events == [s.events[0]];
  }
}
