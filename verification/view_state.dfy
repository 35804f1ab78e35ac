/**
 * The view-mode state machine of the analytics screen: which controls are
 * on screen in each state and what pressing them does.
 */
module ViewStates {
  import opened Options
  import opened Dates
  import opened Batches
  import opened Selector

  /**
   * What the screen works against: the date reader, the records on screen
   * (`dbData`: `[]` until the fetch started on mount resolves, the response
   * after), and the clock reading taken once on mount (`currentDate`).
   */
  datatype Context = Context(reader: DateReader, records: seq<BatchRecord>, now: DateParts)

  /** The screen's view state: `viewMode`, `archiveYear`, `archiveMonth`, `selectedBatchId`. */
  datatype ViewState = ViewState(mode: ViewMode, archiveYear: Option<int>, archiveMonth: Option<int>, selected: Option<int>)

  /** The user's actions, and the navigation effect that re-enters the screen. */
  datatype Event =
    | Navigate            // the location changed
    | OpenArchive         // "View Past Logs"
    | BackToLive          // "Back to Live Data"
    | MenuBack            // the back arrow of the archive date picker
    | PickYear(year: int)
    | ChangeYear          // "Change" next to the chosen year
    | PickMonth(month: int)
    | SelectRow(id: int)  // a row of the batch list

  /** The state on every entry to the screen. */
  const Init := ViewState(Current, None, None, None)

  /** `!archiveYear` is false: a year is chosen (the year 0 is falsy and reads as not chosen). */
  predicate YearChosen(archiveYear: Option<int>) {
    archiveYear.Some? && archiveYear.value != 0
  }

  /** The list the screen shows in state `s`. */
  function Shown(ctx: Context, s: ViewState): seq<BatchRecord> {
    FilteredBatches(ctx.reader, ctx.records, ctx.now, s.mode, s.archiveYear, s.archiveMonth)
  }

  /** Whether the control that raises `e` is on screen in state `s`. */
  predicate Enabled(ctx: Context, s: ViewState, e: Event) {
    match e
    case Navigate => true
    case OpenArchive => s.mode == Current
    case BackToLive => s.mode == ArchiveView
    case MenuBack => s.mode == ArchiveMenu
    case PickYear(y) => s.mode == ArchiveMenu && !YearChosen(s.archiveYear) && y in AvailableYears(ctx.reader, ctx.records)
    case ChangeYear => s.mode == ArchiveMenu && YearChosen(s.archiveYear)
    case PickMonth(m) =>
      s.mode == ArchiveMenu && YearChosen(s.archiveYear) && m in MonthsForYear(ctx.reader, ctx.records, s.archiveYear.value)
    case SelectRow(id) => s.mode != ArchiveMenu && exists b | b in Shown(ctx, s) :: b.id == id
  }

  /**
   * The state after event `e`. An event whose control is not on screen
   * cannot be raised and leaves the state as it is.
   */
  function Step(ctx: Context, s: ViewState, e: Event): (t: ViewState)
    ensures !Enabled(ctx, s, e) ==> t == s
    ensures e == Navigate ==> t == Init
    ensures e == OpenArchive && Enabled(ctx, s, e) ==> t == s.(mode := ArchiveMenu)
    ensures e.PickYear? && Enabled(ctx, s, e) ==> t == s.(archiveYear := Some(e.year))
    ensures e == ChangeYear && Enabled(ctx, s, e) ==> t == s.(archiveYear := None)
    ensures e == BackToLive && Enabled(ctx, s, e) ==>
      t.mode == Current && t.archiveYear == None && t.archiveMonth == None && t.selected == s.selected
    ensures e == MenuBack && Enabled(ctx, s, e) ==> t == s.(mode := Current)
    ensures e.PickMonth? && Enabled(ctx, s, e) ==> t == s.(mode := ArchiveView, archiveMonth := Some(e.month))
    ensures e.SelectRow? && Enabled(ctx, s, e) ==> t == s.(selected := Some(e.id))
    ensures !e.Navigate? && !e.SelectRow? ==> t.selected == s.selected
  {
    if !Enabled(ctx, s, e) then s
    else
      match e
      case Navigate => ViewState(Current, None, None, None)
      case OpenArchive => s.(mode := ArchiveMenu)
      case BackToLive => s.(mode := Current, archiveYear := None, archiveMonth := None)
      case MenuBack => s.(mode := Current)
      case PickYear(y) => s.(archiveYear := Some(y))
      case ChangeYear => s.(archiveYear := None)
      case PickMonth(m) => s.(archiveMonth := Some(m), mode := ArchiveView)
      case SelectRow(id) => s.(selected := Some(id))
  }

  /** The state after a sequence of events. */
  function Run(ctx: Context, s: ViewState, events: seq<Event>): ViewState
    decreases |events|
  {
    if |events| == 0 then s else Run(ctx, Step(ctx, s, events[0]), events[1..])
  }

  /**
   * What holds in every state the screen can reach: a chosen year is one the
   * archive offers; a month is set only in the archived-month view, and
   * there it is one the archive offers for the chosen year.
   */
  ghost predicate Inv(ctx: Context, s: ViewState) {
    && (s.archiveYear.Some? ==> s.archiveYear.value in AvailableYears(ctx.reader, ctx.records))
    && (s.mode != ArchiveView ==> s.archiveMonth == None)
    && (s.mode == ArchiveView ==>
          && YearChosen(s.archiveYear)
          && s.archiveMonth.Some?
          && s.archiveMonth.value in MonthsForYear(ctx.reader, ctx.records, s.archiveYear.value))
  }

  lemma InitInv(ctx: Context)
    ensures Inv(ctx, Init)
  {
  }

  /** Every event keeps the invariant. */
  lemma StepInv(ctx: Context, s: ViewState, e: Event)
    requires Inv(ctx, s)
    ensures Inv(ctx, Step(ctx, s, e))
  {
  }

  lemma {:induction false} RunInv(ctx: Context, s: ViewState, events: seq<Event>)
    requires Inv(ctx, s)
    ensures Inv(ctx, Run(ctx, s, events))
    decreases |events|
  {
    if |events| > 0 {
      StepInv(ctx, s, events[0]);
      RunInv(ctx, Step(ctx, s, events[0]), events[1..]);
    }
  }

  /**
   * However the user gets to an archived month, its list is not empty,
   * while the archive date picker never shows a list.
   */
  lemma ReachableViews(ctx: Context, events: seq<Event>)
    ensures var s := Run(ctx, Init, events);
      && (s.mode == ArchiveView ==> |Shown(ctx, s)| > 0)
      && (s.mode == ArchiveMenu ==> Shown(ctx, s) == [])
  {
    InitInv(ctx);
    RunInv(ctx, Init, events);
    var s := Run(ctx, Init, events);
    if s.mode == ArchiveView {
      OfferedMonthIsNonEmpty(ctx.reader, ctx.records, ctx.now, s.archiveYear.value, s.archiveMonth.value);
    }
  }

  /**
   * The one change of records, from `[]` to the fetched response, keeps the
   * invariant: with no records no year can be chosen, so no state depends
   * on what the response holds.
   */
  lemma LoadKeepsInv(reader: DateReader, now: DateParts, records: seq<BatchRecord>, s: ViewState)
    requires Inv(Context(reader, [], now), s)
    ensures Inv(Context(reader, records, now), s)
  {
  }

  /**
   * `ReachableViews` for the screen as it runs: the user acts while the
   * records are still `[]`, the fetch then delivers `records`, and the user
   * acts on. Every state reached this way shows a non-empty archived month
   * and an empty date picker list.
   */
  lemma {:induction false} ReachableViewsAcrossLoad(reader: DateReader, now: DateParts, records: seq<BatchRecord>,
                                                    before: seq<Event>, after: seq<Event>)
    ensures var loaded := Context(reader, records, now);
      var s := Run(loaded, Run(Context(reader, [], now), Init, before), after);
      && Inv(loaded, s)
      && (s.mode == ArchiveView ==> |Shown(loaded, s)| > 0)
      && (s.mode == ArchiveMenu ==> Shown(loaded, s) == [])
  {
    var empty, loaded := Context(reader, [], now), Context(reader, records, now);
    InitInv(empty);
    RunInv(empty, Init, before);
    var mid := Run(empty, Init, before);
    LoadKeepsInv(reader, now, records, mid);
    RunInv(loaded, mid, after);
    var s := Run(loaded, mid, after);
    if s.mode == ArchiveView {
      OfferedMonthIsNonEmpty(reader, records, now, s.archiveYear.value, s.archiveMonth.value);
    }
  }

  /**
   * Leaving the date picker by its back arrow keeps the chosen year, so
   * reopening the archive goes straight to the month list of that year.
   */
  lemma ReopenKeepsYear(ctx: Context, s: ViewState)
    requires s.mode == ArchiveMenu
    ensures var t := Step(ctx, Step(ctx, s, MenuBack), OpenArchive);
      t.mode == ArchiveMenu && t.archiveYear == s.archiveYear && t.archiveMonth == s.archiveMonth
  {
  }

  /**
   * "Back to Live Data" clears the archive year and month but keeps the
   * record picked in the archived month selected.
   */
  lemma SelectionSurvivesBackToLive(ctx: Context, s: ViewState, id: int)
    requires s.mode == ArchiveView
    requires exists b | b in Shown(ctx, s) :: b.id == id
    ensures var t := Step(ctx, Step(ctx, s, SelectRow(id)), BackToLive);
      t == ViewState(Current, None, None, Some(id))
  {
  }
}
