/** The command that opens the client view of a person chosen by position in
    the displayed list. */
module View {
  import opened Base
  import opened Persons
  import opened Store
  import opened Commands

  /** A position in the displayed list: zero-based inside, one-based to the user. */
  datatype Index = Index(zeroBased: nat)
  {
    function OneBased(): nat
    {
      zeroBased + 1
    }
  }

  /** The index the user typed, if it is positive. */
  function FromOneBased(oneBased: int): (r: Option<Index>)
    ensures r.Some? <==> oneBased >= 1
    ensures r.Some? ==> r.value.OneBased() == oneBased
  {
    if oneBased >= 1 then Some(Index(oneBased - 1)) else None
  }

  datatype ViewCommand = ViewCommand(index: Index)

  const MESSAGE_VIEW_PERSON_SUCCESS := "Viewing Person: "

  /** The person at `index` of the displayed list, or the invalid-index error. */
  function SelectPerson(shown: seq<Person>, index: Index): (r: Result<Person>)
    ensures r.Failure? <==> index.zeroBased >= |shown|
    ensures r.Failure? ==> r.error == CommandException(InvalidPersonDisplayedIndex)
    ensures r.Success? ==> r.value in shown && r.value == shown[index.zeroBased]
  {
    if index.zeroBased >= |shown| then Failure(CommandException(InvalidPersonDisplayedIndex))
    else Success(shown[index.zeroBased])
  }

  /** The position the user typed selects a person exactly when it is between
      1 and the length of the displayed list, and then it selects the person
      it counts to. */
  lemma SelectByOneBased(shown: seq<Person>, oneBased: int)
    requires FromOneBased(oneBased).Some?
    ensures SelectPerson(shown, FromOneBased(oneBased).value).Success? <==> 1 <= oneBased <= |shown|
    ensures 1 <= oneBased <= |shown| ==>
      SelectPerson(shown, FromOneBased(oneBased).value).value == shown[oneBased - 1]
  {
  }

  /** Runs the command against the displayed list `shown` of the address book
      `book`: binds a fresh adapter to the selected person and asks the user
      interface to open its client view. Nothing is changed. The displayed
      list is a filtered view of the book, so every person it shows is in it. */
  method Execute(cmd: ViewCommand, book: AddressBook, shown: seq<Person>) returns (r: Result<CommandResult>)
    requires book.Valid() && forall p :: p in shown ==> p in book.persons
    ensures r.Failure? <==> SelectPerson(shown, cmd.index).Failure?
    ensures r.Failure? ==> r.error == CommandException(InvalidPersonDisplayedIndex)
    ensures r.Success? ==>
      var person := shown[cmd.index.zeroBased];
      && r.value.feedbackToUser == MESSAGE_VIEW_PERSON_SUCCESS + person.name.fullName
      && r.value.logicAction == None
      && r.value.uiAction.Some? && r.value.uiAction.value.ShowClientView?
      && var adapter := r.value.uiAction.value.adapter;
         fresh(adapter) && adapter.book == book && adapter.subject == person && adapter.Valid()
    ensures unchanged(book)
  {
    var selected := SelectPerson(shown, cmd.index);
    if selected.Failure? {
      return Failure(selected.error);
    }
    var person := selected.value;
    var personToView := new PersonAdapter(book, person);
    var feedbackToUser := MESSAGE_VIEW_PERSON_SUCCESS + person.name.fullName;
    r := Success(CommandResult(feedbackToUser, Some(ShowClientView(personToView)), None));
  }

  /** Two view commands are equal exactly when their indices are. */
  predicate Equals(cmd: ViewCommand, other: Other<ViewCommand>)
    ensures Equals(cmd, other) <==> other == Instance(cmd)
  {
    other.Instance? && cmd.index == other.value.index
  }
}
