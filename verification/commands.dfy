/** What executing a command yields: a message for the user and the follow-up
    effects on the user interface and on the command router, as data. */
module Commands {
  import opened Base
  import opened Store

  /** The tab of the client view that is on display. */
  datatype ViewFinderState = CONTACT | POLICIES | LIABILITIES | ASSETS | NOTES

  /** The parser strategy the router uses for the next input line; each is
      bound to the adapter of the person on view. */
  datatype TabParser =
    | ContactTabParser(adapter: PersonAdapter)
    | PolicyTabParser(adapter: PersonAdapter)
    | LiabilitiesTabParser(adapter: PersonAdapter)
    | AssetsTabParser(adapter: PersonAdapter)
    | NotesTabParser(adapter: PersonAdapter)

  /** An effect on the user interface. */
  datatype UiAction =
    | SwitchClientViewTab(tab: ViewFinderState)  // show the given tab
    | RefreshClientViewTab                       // show the current tab again
    | ShowClientView(adapter: PersonAdapter)     // open the client view of a person

  /** An effect on the command router. */
  datatype LogicAction = SetParserStrategy(parser: TabParser)

  datatype CommandResult = CommandResult(
    feedbackToUser: string,
    uiAction: Option<UiAction>,
    logicAction: Option<LogicAction>)

  /** The text of an error: a literal, or a named constant of the shared
      message catalogue, whose text is not part of this model. */
  datatype Message = Text(text: string) | InvalidPersonDisplayedIndex

  datatype CommandError = CommandException(message: Message)

  /** A command either yields a result or fails with a command exception. */
  datatype Result<T> = Success(value: T) | Failure(error: CommandError)
}
