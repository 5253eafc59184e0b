/** The records of `src/types.ts` and the tag presets of `src/App.tsx`. */
module Types {

  /** One entry of the to-do list. */
  datatype TodoItem = TodoItem(
    id: string,
    text: string,
    completed: bool,
    tag: string,    // name of the tag preset chosen at creation
    color: string,  // colour of that preset, copied alongside the name
    date: string)   // opaque date string, shown as given

  /** The `extendedProps` container FullCalendar carries through untouched. */
  datatype ExtendedProps = ExtendedProps(tag: string)

  /** One event on the month calendar. */
  datatype CalendarEvent = CalendarEvent(
    id: string,
    title: string,
    start: string,
    backgroundColor: string,
    borderColor: string,
    extendedProps: ExtendedProps)

  /** A named, coloured tag preset. */
  datatype TagOption = TagOption(name: string, color: string)

  /** The fixed tag presets ("work", "personal", "study"). */
  const TAG_OPTIONS: seq<TagOption> := [
    TagOption("업무", "#ff7675"),
    TagOption("개인", "#74b9ff"),
    TagOption("공부", "#55efc4")
  ]
}
