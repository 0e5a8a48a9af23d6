/** The command that switches the client view to another tab and installs
    that tab's parser strategy. */
module SwitchTab {
  import opened Base
  import Store
  import opened Commands

  datatype SwitchTabCommand = SwitchTabCommand(tab: ViewFinderState, adapter: Store.PersonAdapter)

  const MESSAGE_SUCCESS := "Switched tab"

  /** The parser strategy of `tab`, bound to `adapter`. */
  function ParserFor(tab: ViewFinderState, adapter: Store.PersonAdapter): (p: TabParser)
    ensures p.adapter == adapter
    ensures TabOf(p) == tab
  {
    match tab
    case CONTACT => ContactTabParser(adapter)
    case POLICIES => PolicyTabParser(adapter)
    case LIABILITIES => LiabilitiesTabParser(adapter)
    case ASSETS => AssetsTabParser(adapter)
    case NOTES => NotesTabParser(adapter)
  }

  /** The tab a parser strategy serves. */
  function TabOf(p: TabParser): ViewFinderState
  {
    match p
    case ContactTabParser(_) => CONTACT
    case PolicyTabParser(_) => POLICIES
    case LiabilitiesTabParser(_) => LIABILITIES
    case AssetsTabParser(_) => ASSETS
    case NotesTabParser(_) => NOTES
  }

  /** Every parser strategy is the strategy of exactly one tab and adapter. */
  lemma ParserForBijective(p: TabParser, t1: ViewFinderState, t2: ViewFinderState, a1: Store.PersonAdapter, a2: Store.PersonAdapter)
    ensures ParserFor(TabOf(p), p.adapter) == p
    ensures ParserFor(t1, a1) == ParserFor(t2, a2) ==> t1 == t2 && a1 == a2
  {
  }

  /** Always succeeds: asks the user interface to show the tab and the router
      to install that tab's parser, bound to the command's adapter. */
  function Execute(cmd: SwitchTabCommand): (r: CommandResult)
    ensures r.feedbackToUser == MESSAGE_SUCCESS
    ensures r.uiAction == Some(SwitchClientViewTab(cmd.tab))
    ensures r.logicAction.Some?
    ensures TabOf(r.logicAction.value.parser) == cmd.tab
    ensures r.logicAction.value.parser.adapter == cmd.adapter
  {
    CommandResult(MESSAGE_SUCCESS, Some(SwitchClientViewTab(cmd.tab)), Some(SetParserStrategy(ParserFor(cmd.tab, cmd.adapter))))
  }

  /** What the user interface and the router hold while a client is on view. */
  datatype ClientViewState = ClientViewState(tab: ViewFinderState, parser: TabParser)

  /** The state after the effects of `result` have been carried out. */
  function Perform(result: CommandResult, s: ClientViewState): ClientViewState
  {
    var tab := if result.uiAction.Some? && result.uiAction.value.SwitchClientViewTab?
               then result.uiAction.value.tab else s.tab;
    var parser := if result.logicAction.Some? then result.logicAction.value.parser else s.parser;
    ClientViewState(tab, parser)
  }

  /** Switching tabs puts the view and the router on the same tab whatever
      the state before, so switching again to the same tab changes nothing. */
  lemma SwitchTabIdempotent(cmd: SwitchTabCommand, s: ClientViewState, s': ClientViewState)
    ensures Perform(Execute(cmd), s) == Perform(Execute(cmd), s')
    ensures Perform(Execute(cmd), Perform(Execute(cmd), s)) == Perform(Execute(cmd), s)
    ensures Perform(Execute(cmd), s).tab == cmd.tab == TabOf(Perform(Execute(cmd), s).parser)
    ensures Perform(Execute(cmd), s).parser.adapter == cmd.adapter
  {
  }
}
