/**
 * The `GetGroups` command of command/groups.go: a pure decision from the
 * decoded input and the searcher's reply to the event that is emitted.
 */
module Command {
  import opened Wrappers
  import Group

  const GetGroupsCommandName := "GetGroups"

  /** The name of an event kind. */
  datatype EventDef = EventDef(name: string)

  const SuccessEventDef := EventDef("GroupsRetrieved")
  const ErrorEventDef := EventDef("GroupsRetrievalError")
  /** The event kind the host library's fatal-event constructor uses. */
  const FatalEventDef := EventDef("FATAL")

  const JsonErrorPrefix := "Json unmarshalling error: "
  const NoUsernameText := "No Username provided."

  /** The event payload; an empty field is one the JSON encoding omits. */
  datatype Payload = Payload(username: string, userGroups: seq<string>, errorText: string)

  datatype Event = Event(def: EventDef, payload: Payload)

  /** The command input once decoded: a decoding error, or the username field ("" when absent). */
  datatype Input = Undecodable(reason: string) | Decoded(userName: string)

  /** The group searcher the handler is given: details and username to groups or an error text. */
  type Searcher = (Group.SearchDetails, string) -> Result<seq<string>, string>

  /** One call of the searcher, with the arguments it received. */
  datatype SearcherCall = SearcherCall(details: Group.SearchDetails, username: string)

  /** The emitted event and the searcher calls made on the way. */
  datatype Handled = Handled(event: Event, calls: seq<SearcherCall>)

  /** A command: its name, its handler and the output events it declares. */
  datatype CommandDef = CommandDef(name: string, handler: Input -> Handled, outputEvents: seq<EventDef>)

  /** `NewGetGroupsErrorEvent`: an error event carrying the text and the username, never groups. */
  function NewGetGroupsErrorEvent(errorText: string, username: string): (e: Event)
    ensures e.def == ErrorEventDef && e.def != SuccessEventDef && e.def != FatalEventDef
    ensures e.payload.errorText == errorText && e.payload.username == username
    ensures e.payload.userGroups == []
  {
    Event(ErrorEventDef, Payload(username, [], errorText))
  }

  /** `getGroupsHandler`: decode, reject an empty username, search once, report. */
  function GetGroupsHandler(searcher: Searcher, details: Group.SearchDetails, input: Input): (h: Handled)
    // the searcher is called at most once, only for a non-empty username, with the details unmodified
    ensures |h.calls| <= 1
    ensures |h.calls| == 1 <==> input.Decoded? && input.userName != ""
    ensures forall i :: 0 <= i < |h.calls| ==> h.calls[i] == SearcherCall(details, input.userName)
    // undecodable input is fatal and reports the decoding error
    ensures input.Undecodable? <==> h.event.def == FatalEventDef
    ensures input.Undecodable? ==>
      h.event.payload == Payload("", [], JsonErrorPrefix + input.reason)
    // a missing or empty username is an error without a search
    ensures input == Decoded("") ==> h.event == NewGetGroupsErrorEvent(NoUsernameText, "")
    // otherwise the searcher's reply decides
    ensures input.Decoded? && input.userName != "" ==>
      match searcher(details, input.userName)
      case Failure(e) => h.event == NewGetGroupsErrorEvent(e, input.userName)
      case Success(groups) => h.event == Event(SuccessEventDef, Payload(input.userName, groups, ""))
    // success exactly when a search was made and it succeeded
    ensures h.event.def == SuccessEventDef <==>
      input.Decoded? && input.userName != "" && searcher(details, input.userName).Success?
    // an event that is not a success never carries groups
    ensures h.event.def != SuccessEventDef ==> h.event.payload.userGroups == []
  {
    match input
    case Undecodable(reason) =>
      Handled(Event(FatalEventDef, Payload("", [], JsonErrorPrefix + reason)), [])
    case Decoded(userName) =>
      if userName == "" then
        Handled(NewGetGroupsErrorEvent(NoUsernameText, ""), [])
      else
        var calls := [SearcherCall(details, userName)];
        match searcher(details, userName)
        case Failure(e) => Handled(NewGetGroupsErrorEvent(e, userName), calls)
        case Success(groups) => Handled(Event(SuccessEventDef, Payload(userName, groups, "")), calls)
  }

  /**
   * `GetGroupsCommand`: the command named `GetGroups`, declaring the success
   * and error events; every event its handler emits is declared, except the
   * fatal event of the host library.
   */
  function GetGroupsCommand(searcher: Searcher, details: Group.SearchDetails): (c: CommandDef)
    ensures c.name == "GetGroups"
    ensures c.outputEvents == [EventDef("GroupsRetrieved"), EventDef("GroupsRetrievalError")]
    ensures forall input :: c.handler(input) == GetGroupsHandler(searcher, details, input)
    ensures forall input :: c.handler(input).event.def in c.outputEvents || c.handler(input).event.def == FatalEventDef
  {
    CommandDef(GetGroupsCommandName, input => GetGroupsHandler(searcher, details, input),
               [SuccessEventDef, ErrorEventDef])
  }

  /**
   * The error event is emitted exactly when a decoded input lacks a username
   * or the search for it failed; a search is never made after a rejection.
   */
  lemma ErrorEventExactlyWhenRejected(searcher: Searcher, details: Group.SearchDetails, input: Input)
    ensures var h := GetGroupsHandler(searcher, details, input);
      && (h.event.def == ErrorEventDef <==>
            input.Decoded? && (input.userName == "" || searcher(details, input.userName).Failure?))
      && (h.event.def == ErrorEventDef && h.calls == [] ==> h.event.payload.errorText == NoUsernameText)
      && (input == Decoded("") ==> h.calls == [])
  {
    var h := GetGroupsHandler(searcher, details, input);
    if input.Decoded? && input.userName != "" {
      assert |h.calls| == 1;
    }
  }
}
