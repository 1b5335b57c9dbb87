/**
 * Validation of an add-task argument and its translation into an add directive.
 * Every failure is an `IncorrectInputException`, modelled as `InputError`, whose
 * variant tells the reasons apart.
 */
module AddDirectiveParser {
  import opened Wrappers
  import opened Argument
  import opened Tasks

  /** Option flag of a task's description. */
  const OPTION_DESCRIPTION: string := "/d"
  /** Option flag of a deadline's date. */
  const OPTION_DEADLINE_DATETIME: string := "/by"
  /** Option flag of an event's date. */
  const OPTION_EVENT_DATETIME: string := "/at"

  /** The reasons an add argument is rejected; the message text is not modelled. */
  datatype InputError =
    | MissingDescription
    | MissingDate(flag: string)
    | IncorrectDateFormat
    | InvalidTask

  /** An add directive: the action, the description and, for dated tasks, the date. */
  datatype AddDirective = AddDirective(action: Action, description: string, date: Option<Date>)

  /**
   * The date utility's parser: `Some(date)` for a well-formed year-month-day string,
   * `None` where it throws `DateTimeParseException`.
   */
  type DateParser = string -> Option<Date>

  predicate IsAddAction(a: Action) {
    a == AddTodo || a == AddDeadline || a == AddEvent
  }

  /** The directives a successful parse may produce. */
  predicate WellFormed(d: AddDirective) {
    && IsAddAction(d.action)
    && d.description != ""
    && (d.date.None? <==> d.action == AddTodo)
  }

  /** `parse`: the description is checked first, then the action decides what else is read. */
  function Parse(args: Argument, parseDate: DateParser): (r: Result<AddDirective, InputError>)
    ensures args.OptionValue(OPTION_DESCRIPTION) == "" ==> r == Failure(MissingDescription)
    ensures r.Success? ==> WellFormed(r.value)
    ensures r.Success? ==> r.value.action == args.action
    ensures r.Success? ==> r.value.description == args.OptionValue(OPTION_DESCRIPTION)
    ensures r == Failure(InvalidTask) <==>
              args.OptionValue(OPTION_DESCRIPTION) != "" && !IsAddAction(args.action)
  {
    var description := args.OptionValue(OPTION_DESCRIPTION);
    if description == "" then
      Failure(MissingDescription)
    else
      match args.action
      case AddTodo => Success(AddDirective(AddTodo, description, None))
      case AddDeadline => ParseDeadline(description, args, parseDate)
      case AddEvent => ParseEvent(description, args, parseDate)
      case _ => Failure(InvalidTask)
  }

  /** `parseDeadline`: reads `/by` only; an empty value and an unparseable one fail differently. */
  function ParseDeadline(description: string, args: Argument, parseDate: DateParser)
    : (r: Result<AddDirective, InputError>)
    ensures r == Failure(MissingDate(OPTION_DEADLINE_DATETIME)) <==>
              args.OptionValue(OPTION_DEADLINE_DATETIME) == ""
    ensures r == Failure(IncorrectDateFormat) <==>
              args.OptionValue(OPTION_DEADLINE_DATETIME) != ""
              && parseDate(args.OptionValue(OPTION_DEADLINE_DATETIME)).None?
    ensures r.Success? <==>
              args.OptionValue(OPTION_DEADLINE_DATETIME) != ""
              && parseDate(args.OptionValue(OPTION_DEADLINE_DATETIME)).Some?
    ensures r.Success? ==>
              && r.value.action == AddDeadline
              && r.value.description == description
              && r.value.date.Some?
              && r.value.date == parseDate(args.OptionValue(OPTION_DEADLINE_DATETIME))
  {
    var dateString := args.OptionValue(OPTION_DEADLINE_DATETIME);
    if dateString == "" then
      Failure(MissingDate(OPTION_DEADLINE_DATETIME))
    else
      match parseDate(dateString)
      case Some(due) => Success(AddDirective(AddDeadline, description, Some(due)))
      case None => Failure(IncorrectDateFormat)
  }

  /** `parseEvent`: reads `/at` only; an empty value and an unparseable one fail differently. */
  function ParseEvent(description: string, args: Argument, parseDate: DateParser)
    : (r: Result<AddDirective, InputError>)
    ensures r == Failure(MissingDate(OPTION_EVENT_DATETIME)) <==>
              args.OptionValue(OPTION_EVENT_DATETIME) == ""
    ensures r == Failure(IncorrectDateFormat) <==>
              args.OptionValue(OPTION_EVENT_DATETIME) != ""
              && parseDate(args.OptionValue(OPTION_EVENT_DATETIME)).None?
    ensures r.Success? <==>
              args.OptionValue(OPTION_EVENT_DATETIME) != ""
              && parseDate(args.OptionValue(OPTION_EVENT_DATETIME)).Some?
    ensures r.Success? ==>
              && r.value.action == AddEvent
              && r.value.description == description
              && r.value.date.Some?
              && r.value.date == parseDate(args.OptionValue(OPTION_EVENT_DATETIME))
  {
    var dateString := args.OptionValue(OPTION_EVENT_DATETIME);
    if dateString == "" then
      Failure(MissingDate(OPTION_EVENT_DATETIME))
    else
      match parseDate(dateString)
      case Some(at) => Success(AddDirective(AddEvent, description, Some(at)))
      case None => Failure(IncorrectDateFormat)
  }

  /** The option a dated add action takes its date from. */
  function DateFlag(a: Action): string {
    if a == AddDeadline then OPTION_DEADLINE_DATETIME else OPTION_EVENT_DATETIME
  }

  /** A todo with a description succeeds with no date, whatever the date options and parser say. */
  lemma TodoNeedsNoDate(args: Argument, parseDate: DateParser)
    requires args.action == AddTodo && args.OptionValue(OPTION_DESCRIPTION) != ""
    ensures Parse(args, parseDate) ==
              Success(AddDirective(AddTodo, args.OptionValue(OPTION_DESCRIPTION), None))
  {
  }

  /** With a description present, a deadline without `/by` or an event without `/at` names that flag. */
  lemma MissingDateNamesFlag(args: Argument, parseDate: DateParser)
    requires args.action == AddDeadline || args.action == AddEvent
    requires args.OptionValue(OPTION_DESCRIPTION) != ""
    requires args.OptionValue(DateFlag(args.action)) == ""
    ensures Parse(args, parseDate) == Failure(MissingDate(DateFlag(args.action)))
    ensures args.action == AddDeadline ==> DateFlag(args.action) == "/by"
    ensures args.action == AddEvent ==> DateFlag(args.action) == "/at"
  {
  }

  /** A non-empty date the parser rejects gives the date-format error, never a parse exception. */
  lemma UnparseableDateIsFormatError(args: Argument, parseDate: DateParser)
    requires args.action == AddDeadline || args.action == AddEvent
    requires args.OptionValue(OPTION_DESCRIPTION) != ""
    requires args.OptionValue(DateFlag(args.action)) != ""
    requires parseDate(args.OptionValue(DateFlag(args.action))) == None
    ensures Parse(args, parseDate) == Failure(IncorrectDateFormat)
  {
  }

  /**
   * A dated add succeeds exactly when the description and the action's date option are both
   * present and the date parses; the directive then carries the action, the exact description
   * and the parsed date.
   */
  lemma DatedSuccess(args: Argument, parseDate: DateParser)
    requires args.action == AddDeadline || args.action == AddEvent
    ensures Parse(args, parseDate).Success? <==>
              && args.OptionValue(OPTION_DESCRIPTION) != ""
              && args.OptionValue(DateFlag(args.action)) != ""
              && parseDate(args.OptionValue(DateFlag(args.action))).Some?
    ensures Parse(args, parseDate).Success? ==>
              Parse(args, parseDate).value == AddDirective(
                args.action,
                args.OptionValue(OPTION_DESCRIPTION),
                parseDate(args.OptionValue(DateFlag(args.action))))
  {
  }

  /** Any other action, given a description, is rejected as an invalid task. */
  lemma OtherActionIsInvalidTask(args: Argument, parseDate: DateParser)
    requires !IsAddAction(args.action) && args.OptionValue(OPTION_DESCRIPTION) != ""
    ensures Parse(args, parseDate) == Failure(InvalidTask)
  {
  }

  /**
   * The result depends only on the action, the description, the date option that action
   * reads, and what the date parser says about that option's value.
   */
  lemma ParseReadsOnlyItsOptions(a1: Argument, a2: Argument, p1: DateParser, p2: DateParser)
    requires a1.action == a2.action
    requires a1.OptionValue(OPTION_DESCRIPTION) == a2.OptionValue(OPTION_DESCRIPTION)
    requires a1.action == AddDeadline || a1.action == AddEvent ==>
               && a1.OptionValue(DateFlag(a1.action)) == a2.OptionValue(DateFlag(a1.action))
               && p1(a1.OptionValue(DateFlag(a1.action))) == p2(a1.OptionValue(DateFlag(a1.action)))
    ensures Parse(a1, p1) == Parse(a2, p2)
  {
  }

  /** Supplying `/at` to a deadline, or `/by` to an event, changes nothing. */
  lemma OtherDateFlagIgnored(options: map<string, string>, value: string, parseDate: DateParser)
    ensures Parse(Argument(AddDeadline, options[OPTION_EVENT_DATETIME := value]), parseDate)
         == Parse(Argument(AddDeadline, options), parseDate)
    ensures Parse(Argument(AddEvent, options[OPTION_DEADLINE_DATETIME := value]), parseDate)
         == Parse(Argument(AddEvent, options), parseDate)
  {
  }

  /** An option supplied with an empty value reads exactly as an option never supplied. */
  lemma EmptyOptionIsAbsent(a: Action, options: map<string, string>, flag: string, parseDate: DateParser)
    ensures Parse(Argument(a, options[flag := ""]), parseDate)
         == Parse(Argument(a, options - {flag}), parseDate)
  {
  }

  /** A deadline "submit report" by "2024-03-01" stores exactly the date the parser returns. */
  lemma DeadlineExample(parseDate: DateParser)
    requires parseDate("2024-03-01") == Some(Date(2024, 3, 1))
    ensures Parse(Argument(AddDeadline, map["/d" := "submit report", "/by" := "2024-03-01"]), parseDate)
         == Success(AddDirective(AddDeadline, "submit report", Some(Date(2024, 3, 1))))
  {
  }
}
