/** The command that removes the record at a position of the canonical order
    from one of the three record collections of the person on view. */
module Remove {
  import opened Base
  import opened Ordering
  import opened Persons
  import opened Store
  import opened Commands

  /** A zero-based position in a record collection. */
  datatype Index = Index(zeroBased: nat)

  /** The string forms of the three record types. */
  datatype Renderers = Renderers(
    policy: Policy -> string,
    liability: Liability -> string,
    asset: Asset -> string)

  datatype RemoveCommand = RemoveCommand(adapter: PersonAdapter, field: PersonField, index: Index)

  const MESSAGE_SUCCESS := ""
  const MESSAGE_NO_SUCH_INDEX := "No such index found."
  const MESSAGE_INVALID_TAB := "Invalid tab for append"

  /** The outcome of removing by position: the remaining records, or the
      position was out of bounds. */
  datatype Removal<T> = Removed(rest: set<T>) | IndexOutOfBounds

  /** Lists `original` in ascending order of string form, removes the element
      at `index` and collects the rest into a new set. */
  method RemoveWithOrder<T(!new)>(original: set<T>, show: T -> string, index: Index) returns (r: Removal<T>)
    ensures r.IndexOutOfBounds? <==> index.zeroBased >= |original|
    ensures r.Removed? ==> RemovedAt(original, r.rest, show, index.zeroBased)
  {
    // iterate the set, in whatever order it yields its elements
    var xs: seq<T> := [];
    var left := original;
    while left != {}
      invariant left <= original
      invariant multiset(xs) + multiset(left) == multiset(original)
      decreases |left|
    {
      var x :| x in left;
      xs := xs + [x];
      left := left - {x};
    }
    EnumerationLength(xs, original);
    var list := Sort(xs, show);
    var i := index.zeroBased;
    if i >= |list| {
      return IndexOutOfBounds;
    }
    ghost var sorted := list;
    list := list[..i] + list[i + 1..];
    // copy the remaining elements into a fresh set
    var rest: set<T> := {};
    for k := 0 to |list|
      invariant forall x :: x in rest <==> x in list[..k]
    {
      assert list[..k + 1] == list[..k] + [list[k]];
      rest := rest + {list[k]};
    }
    assert list[..|list|] == list;
    RemoveAtElements(sorted, original, i);
    assert Enumerates(list, original - {sorted[i]});
    forall x
      ensures x in rest <==> x in original - {sorted[i]}
    {
      assert x in list <==> x in multiset(list);
    }
    r := Removed(rest);
  }

  /** The number of records in the collection `field` names (0 for the
      others). */
  function CollectionSize(p: Person, field: PersonField): nat
  {
    match field
    case POLICIES => |p.policies|
    case LIABILITIES => |p.liabilities|
    case ASSETS => |p.assets|
    case _ => 0
  }

  /** Only the three record collections can be removed from. */
  predicate Removable(field: PersonField)
  {
    field == PersonField.POLICIES || field == PersonField.LIABILITIES || field == PersonField.ASSETS
  }

  /** `after` is `before` with the record at position `i` of the canonical
      order of the collection `field` removed, and nothing else changed. */
  ghost predicate RemovedFrom(before: Person, after: Person, field: PersonField, i: nat, render: Renderers)
  {
    match field
    case POLICIES =>
      after == before.(policies := after.policies)
      && RemovedAt(before.policies, after.policies, render.policy, i)
    case LIABILITIES =>
      after == before.(liabilities := after.liabilities)
      && RemovedAt(before.liabilities, after.liabilities, render.liability, i)
    case ASSETS =>
      after == before.(assets := after.assets)
      && RemovedAt(before.assets, after.assets, render.asset, i)
    case _ => false
  }

  /** Runs the command against the person on view. On success the subject has
      lost exactly the indexed record of the targeted collection, in the book
      as well; on failure nothing changed. */
  method Execute(cmd: RemoveCommand, render: Renderers) returns (r: Result<CommandResult>)
    requires cmd.adapter.Valid()
    modifies cmd.adapter, cmd.adapter.book
    ensures cmd.adapter.Valid()
    ensures r.Success? <==>
      Removable(cmd.field) && cmd.index.zeroBased < CollectionSize(old(cmd.adapter.subject), cmd.field)
    ensures !Removable(cmd.field) ==> r == Failure(CommandException(Text(MESSAGE_INVALID_TAB)))
    ensures Removable(cmd.field) && r.Failure? ==> r == Failure(CommandException(Text(MESSAGE_NO_SUCH_INDEX)))
    ensures r.Failure? ==>
      cmd.adapter.subject == old(cmd.adapter.subject) && cmd.adapter.book.persons == old(cmd.adapter.book.persons)
    ensures r.Success? ==>
      && r.value == CommandResult(MESSAGE_SUCCESS, Some(RefreshClientViewTab), None)
      && RemovedFrom(old(cmd.adapter.subject), cmd.adapter.subject, cmd.field, cmd.index.zeroBased, render)
      && cmd.adapter.book.persons
         == old(cmd.adapter.book.persons)[IndexOf(old(cmd.adapter.book.persons), old(cmd.adapter.subject)) := cmd.adapter.subject]
  {
    var adapter := cmd.adapter;
    match cmd.field {
      case POLICIES =>
        var rp := RemoveWithOrder(adapter.subject.policies, render.policy, cmd.index);
        if rp.IndexOutOfBounds? {
          return Failure(CommandException(Text(MESSAGE_NO_SUCH_INDEX)));
        }
        adapter.EditPolicies(rp.rest);
      case LIABILITIES =>
        var rl := RemoveWithOrder(adapter.subject.liabilities, render.liability, cmd.index);
        if rl.IndexOutOfBounds? {
          return Failure(CommandException(Text(MESSAGE_NO_SUCH_INDEX)));
        }
        adapter.EditLiabilities(rl.rest);
      case ASSETS =>
        var ra := RemoveWithOrder(adapter.subject.assets, render.asset, cmd.index);
        if ra.IndexOutOfBounds? {
          return Failure(CommandException(Text(MESSAGE_NO_SUCH_INDEX)));
        }
        adapter.EditAssets(ra.rest);
      case _ =>
        return Failure(CommandException(Text(MESSAGE_INVALID_TAB)));
    }
    r := Success(CommandResult(MESSAGE_SUCCESS, Some(RefreshClientViewTab), None));
  }

  /** A successful removal leaves a collection one smaller, a subset of the
      old one; when the string form tells the records apart the record
      removed is the one at that position of the canonical order. */
  lemma RemovedFromPolicies(before: Person, after: Person, i: nat, render: Renderers)
    requires RemovedFrom(before, after, PersonField.POLICIES, i, render)
    ensures |after.policies| == |before.policies| - 1 && after.policies < before.policies
    ensures InjectiveOn(render.policy, before.policies) ==>
      after.policies == before.policies - {CanonicalOrder(before.policies, render.policy)[i]}
    ensures after.liabilities == before.liabilities && after.assets == before.assets
  {
    RemovedAtShrinks(before.policies, after.policies, render.policy, i);
    if InjectiveOn(render.policy, before.policies) {
      RemovedAtCanonical(before.policies, after.policies, render.policy, i);
    }
  }

  lemma RemovedFromLiabilities(before: Person, after: Person, i: nat, render: Renderers)
    requires RemovedFrom(before, after, PersonField.LIABILITIES, i, render)
    ensures |after.liabilities| == |before.liabilities| - 1 && after.liabilities < before.liabilities
    ensures InjectiveOn(render.liability, before.liabilities) ==>
      after.liabilities == before.liabilities - {CanonicalOrder(before.liabilities, render.liability)[i]}
    ensures after.policies == before.policies && after.assets == before.assets
  {
    RemovedAtShrinks(before.liabilities, after.liabilities, render.liability, i);
    if InjectiveOn(render.liability, before.liabilities) {
      RemovedAtCanonical(before.liabilities, after.liabilities, render.liability, i);
    }
  }

  lemma RemovedFromAssets(before: Person, after: Person, i: nat, render: Renderers)
    requires RemovedFrom(before, after, PersonField.ASSETS, i, render)
    ensures |after.assets| == |before.assets| - 1 && after.assets < before.assets
    ensures InjectiveOn(render.asset, before.assets) ==>
      after.assets == before.assets - {CanonicalOrder(before.assets, render.asset)[i]}
    ensures after.policies == before.policies && after.liabilities == before.liabilities
  {
    RemovedAtShrinks(before.assets, after.assets, render.asset, i);
    if InjectiveOn(render.asset, before.assets) {
      RemovedAtCanonical(before.assets, after.assets, render.asset, i);
    }
  }

  /** Two remove commands are equal exactly when they hold the same adapter
      (by identity), field and index. */
  predicate Equals(cmd: RemoveCommand, other: Other<RemoveCommand>)
    ensures Equals(cmd, other) <==> other == Instance(cmd)
  {
    other.Instance?
    && cmd.adapter == other.value.adapter
    && cmd.field == other.value.field
    && cmd.index == other.value.index
  }
}
