# DonnaFin command core in Dafny

DonnaFin is a desktop client-record manager. A client (a `Person`) has:

- contact details;
- tags;
- notes;
- three unordered collections of financial records: policies, liabilities and assets.

This project models the small, value-oriented core around those clients and proves properties of the model:

- **RemoveCommand** removes a record by a positional index.
  - The index counts positions in an order derived from the set: the records ascending by string form.
  - Only the three record collections can be targeted.
  - An index past the end fails with "No such index found." and changes nothing.
  - Success commits the edit through the person adapter and asks the user interface to refresh the tab.
- **Person** is an immutable value with two equalities:
  - a weak one (same name);
  - a strong one (name, phone, email, address, tags and notes).
  It also has a display string and a fixed-order attribute list.
- **ViewCommand** selects a person from the displayed list with a bounds check, and opens that person's client view through a fresh adapter.
- **SwitchTabCommand** maps each of the five tabs to a pair of effects: show that tab, and install that tab's parser strategy, bound to the same adapter.
- **SampleDataUtil** builds tag and record sets from strings. Each record string is split on the literal delimiter `;;;`, and trailing empty pieces are dropped as `String.split` drops them. It also builds the six sample persons and an address book that holds them.

Module layout:

| file | module | contents |
|---|---|---|
| `base.dfy` | `Base` | `Option`; `Other` for the argument of an `equals(Object)` |
| `text.dfy` | `Text` | the `String.compareTo` order; literal-delimiter `Split`/`Join` with both round trips; the `String.split` form that drops trailing empty pieces |
| `ordering.dfy` | `Ordering` | iteration orders of a set; a stable sort by string form; the canonical order; removal by position |
| `person.dfy` | `Persons` | the person value and its equalities, string form and attribute list |
| `store.dfy` | `Store` | the address book and the person adapter as classes |
| `commands.dfy` | `Commands` | command results, with their UI and router effects as data |
| `remove_command.dfy` | `Remove` | the remove command |
| `view_command.dfy` | `View` | the view command |
| `switch_tab_command.dfy` | `SwitchTab` | the tab-switch command |
| `sample_data.dfy` | `SampleData` | the sample data |

Modelling choices:

- **Hash-set iteration order.** The order in which a hash set yields its elements is not determined by its contents. The model therefore takes it as any enumeration of the set (`Ordering.Enumerates`).
  - The remove command's result is specified for some enumeration (`Ordering.RemovedAt`).
  - When the string form is injective on the set, that is proved to be the same as removing position `i` of the one canonical order.
  - `Person.toString` takes the tag order as a parameter.
- **Record string forms.** `Policy`, `Liability` and `Asset` are not part of this model. Their string forms are parameters of the remove command (`Remove.Renderers`).
- **Mismatches in the source.** The source files do not form one compilable version, and the model follows the callers:
  - `Person.java:33` declares a six-argument constructor without record collections.
  - `SampleDataUtil.java:29-35` calls a nine-argument one, and `RemoveCommand.java:53` reads `getPolicies()`.
  - So `Persons.Person` has nine fields.
  - The strong equality still compares only the six fields `Person.equals` compares (`Person.java:99-104`).
  - `RemoveCommand.java:13` and `ViewCommand.java:9` import two different `Index` classes. They are modelled as two types, `Remove.Index` and `View.Index`.
- **Sample data.** The sample persons are built from a table of their contact details (`SampleData.SAMPLE_CONTACTS`). Each row is passed through one constructor that adds the sample records. The Java array writes out the six constructor calls in full.
  - The sample record strings are written as their attribute lists joined by `;;;` (`SampleData.SAMPLE_POLICY` and the others). Each is the same string as the literal in `SampleDataUtil.java:32-35`.

## Model

| member | source | states |
|---|---|---|
| Text.LexLe | src/main/java/donnafin/logic/commands/RemoveCommand.java:86 | defines the `String.compareTo` order: at the first differing position the smaller character wins, and a proper prefix comes first |
| Text.LexLeTotal | src/main/java/donnafin/logic/commands/RemoveCommand.java:86 | any two strings are comparable in the `compareTo` order the sort uses |
| Text.LexLeAntisymmetric | src/main/java/donnafin/logic/commands/RemoveCommand.java:86 | two strings that sort before each other are equal |
| Text.LexLeTransitive | src/main/java/donnafin/logic/commands/RemoveCommand.java:86 | the string order is transitive |
| Text.JoinSplit | src/main/java/donnafin/model/util/SampleDataUtil.java:96 | joining the pieces of the literal split, trailing empty pieces included, with the delimiter gives back the original string |
| Text.SplitJoin | src/main/java/donnafin/model/util/SampleDataUtil.java:96 | splitting a join of pieces that contain no `;` (no character equal to the delimiter's first) gives back exactly those pieces, in order |
| Text.SplitInjective | src/main/java/donnafin/model/util/SampleDataUtil.java:94-116 | different strings have different literal splits, trailing empty pieces included |
| Text.SplitTrimmed | src/main/java/donnafin/model/util/SampleDataUtil.java:96 | defines `String.split`: the empty string gives one empty piece, and any other string gives its literal split with trailing empty pieces dropped |
| Text.DropTrailingEmpty | src/main/java/donnafin/model/util/SampleDataUtil.java:96 | the result is a prefix of the pieces, everything dropped is empty, and the last piece kept is not empty |
| Text.SplitTrimmedJoin | src/main/java/donnafin/model/util/SampleDataUtil.java:96 | `String.split` of a join of pieces that contain no `;`, the last of them not empty, gives back exactly those pieces, in order |
| Text.SplitTrimmedMerges | src/main/java/donnafin/model/util/SampleDataUtil.java:96 | `String.split` gives `"a;;;"` and `"a"` the same single piece, so different strings can give equal records |
| Text.SplitTrimmedInjective | src/main/java/donnafin/model/util/SampleDataUtil.java:94-116 | for strings whose last piece is not empty, `String.split` equals the literal split, and different strings give different pieces |
| Ordering.EnumerationExists | src/main/java/donnafin/logic/commands/RemoveCommand.java:85 | every set has an iteration order that lists each element exactly once |
| Ordering.Sort | src/main/java/donnafin/logic/commands/RemoveCommand.java:85-87 | the sorted list is a permutation of its input |
| Ordering.SortSorted | src/main/java/donnafin/logic/commands/RemoveCommand.java:85-87 | the sorted list is ascending by string form |
| Ordering.SortedUnique | src/main/java/donnafin/logic/commands/RemoveCommand.java:85-87 | two ascending permutations of the same elements coincide when the string form tells the elements apart |
| Ordering.CanonicalOrder | src/main/java/donnafin/logic/commands/RemoveCommand.java:85-87 | the canonical order lists every element of the set once, ascending by string form |
| Ordering.SortIndependentOfIteration | src/main/java/donnafin/logic/commands/RemoveCommand.java:85-87 | with an injective string form, the sorted list does not depend on the set's iteration order |
| Ordering.RemoveAtElements | src/main/java/donnafin/logic/commands/RemoveCommand.java:88-89 | dropping position i of an enumeration enumerates the set without that element |
| Ordering.RemovedAtShrinks | src/main/java/donnafin/logic/commands/RemoveCommand.java:84-90 | a removal at i needs i < \|S\|, takes exactly one element of S away and leaves a proper subset of size \|S\|-1 |
| Ordering.RemovedAtCanonical | src/main/java/donnafin/logic/commands/RemoveCommand.java:84-90 | with an injective string form, a removal at i leaves S minus position i of the canonical order |
| Remove.RemoveWithOrder | src/main/java/donnafin/logic/commands/RemoveCommand.java:84-90 | fails exactly when the index is at least the set's size; otherwise returns the set without the element at that position of the sorted list |
| Remove.Execute | src/main/java/donnafin/logic/commands/RemoveCommand.java:47-82 | only the three record fields are accepted; CONTACT and NOTES fail with "Invalid tab for append"; an index past the end fails with "No such index found."; on failure neither the subject nor the book changes; on success the message is the empty MESSAGE_SUCCESS with a refresh effect, the subject lost exactly the indexed record of the targeted collection, and the book holds the edited subject in place of the old one |
| Remove.RemovedFromPolicies | src/main/java/donnafin/logic/commands/RemoveCommand.java:52-55 | a policy removal shrinks the policies by one to a proper subset and leaves liabilities and assets untouched |
| Remove.RemovedFromLiabilities | src/main/java/donnafin/logic/commands/RemoveCommand.java:56-59 | a liability removal shrinks the liabilities by one to a proper subset and leaves policies and assets untouched |
| Remove.RemovedFromAssets | src/main/java/donnafin/logic/commands/RemoveCommand.java:60-63 | an asset removal shrinks the assets by one to a proper subset and leaves policies and liabilities untouched |
| Remove.Equals | src/main/java/donnafin/logic/commands/RemoveCommand.java:92-102 | two remove commands are equal exactly when adapter, field and index are equal |
| Store.AddressBook.constructor | src/main/java/donnafin/model/util/SampleDataUtil.java:75 | a new address book is empty |
| Store.AddressBook.AddPerson | src/main/java/donnafin/model/util/SampleDataUtil.java:77 | adding a person whose name is not yet in the book appends it and keeps names unique |
| Store.PersonAdapter.constructor | src/main/java/donnafin/logic/commands/ViewCommand.java:51 | the adapter is bound to the given book and person, and is valid when the person is in a valid book |
| Store.PersonAdapter.Commit | src/main/java/donnafin/logic/commands/RemoveCommand.java:54-62 | the subject becomes the edited person, which replaces the old subject in place in the book; the book stays valid |
| Store.PersonAdapter.EditPolicies | src/main/java/donnafin/logic/commands/RemoveCommand.java:54 | the subject becomes the old subject with new policies, and replaces the old subject in place in the book |
| Store.PersonAdapter.EditLiabilities | src/main/java/donnafin/logic/commands/RemoveCommand.java:58 | the subject becomes the old subject with new liabilities, and replaces the old subject in place in the book |
| Store.PersonAdapter.EditAssets | src/main/java/donnafin/logic/commands/RemoveCommand.java:62 | the subject becomes the old subject with new assets, and replaces the old subject in place in the book |
| Persons.IsSamePerson | src/main/java/donnafin/model/person/Person.java:75-82 | defines weak equality: the other person is present (not null) and has the same name |
| Persons.Equals | src/main/java/donnafin/model/person/Person.java:89-105 | defines strong equality: the other object is a person with the same name, phone, email, address, tags and notes; a non-person is unequal |
| Persons.EqualsImpliesSamePerson | src/main/java/donnafin/model/person/Person.java:75-105 | strong equality implies weak equality; a person is equal to itself in both senses |
| Persons.EqualitiesAreEquivalences | src/main/java/donnafin/model/person/Person.java:75-105 | both equalities are symmetric and transitive |
| Persons.EqualsIgnoresRecords | src/main/java/donnafin/model/person/Person.java:99-104 | persons that differ only in their records are equal, though they are different values |
| Persons.ToString | src/main/java/donnafin/model/person/Person.java:113-131 | defines the string form: name, then "; Phone: ", "; Email: " and "; Address: " with their values, then "; Tags: " and the tags in iteration order when there are tags, then "; Notes: " and the notes |
| Persons.ToStringShape | src/main/java/donnafin/model/person/Person.java:113-131 | the string form starts with the name and the labelled phone, email and address, ends with "; Notes: " and the notes, and has a tags part exactly when the tag set is not empty |
| Persons.ToStringDeterministicForOneTag | src/main/java/donnafin/model/person/Person.java:124-128 | with at most one tag the string form does not depend on iteration order, whatever the tags' own string form |
| Persons.AllAttributes | src/main/java/donnafin/model/person/Person.java:134-141 | the attribute list is name, phone, email and address, in that order |
| Persons.AllAttributesAgree | src/main/java/donnafin/model/person/Person.java:134-141 | the attribute list's head decides weak equality, and strongly equal persons list the same attributes |
| View.FromOneBased | src/test/java/donnafin/logic/parser/AddressBookParserTest.java:131-135 | a typed index gives a position exactly when it is at least 1, and the position counts back to it |
| View.SelectPerson | src/main/java/donnafin/logic/commands/ViewCommand.java:45-50 | fails with the invalid-index error exactly when the index is past the displayed list; otherwise yields the person at that index |
| View.SelectByOneBased | src/main/java/donnafin/logic/commands/ViewCommand.java:47-50 | a typed index selects a person exactly when it is between 1 and the list's length, and then selects the person it counts to |
| View.Execute | src/main/java/donnafin/logic/commands/ViewCommand.java:42-56 | for a displayed list drawn from a valid book: fails exactly when the selection does; on success the message is "Viewing Person: " and the name, and the effect opens the client view through a fresh, valid adapter bound to the book and the selected person; the book is unchanged |
| View.Equals | src/main/java/donnafin/logic/commands/ViewCommand.java:58-63 | two view commands are equal exactly when their indices are |
| SwitchTab.ParserFor | src/main/java/donnafin/logic/commands/SwitchTabCommand.java:57-78 | the parser installed for a tab serves that tab and is bound to the given adapter |
| SwitchTab.ParserForBijective | src/main/java/donnafin/logic/commands/SwitchTabCommand.java:58-73 | the tab-to-parser map is injective and every parser strategy is reached |
| SwitchTab.Execute | src/main/java/donnafin/logic/commands/SwitchTabCommand.java:44-80 | always succeeds with "Switched tab", switches the view to exactly the requested tab, and installs that tab's parser bound to the command's adapter |
| SwitchTab.Perform | src/main/java/donnafin/logic/commands/SwitchTabCommand.java:47-78 | defines how the returned effects are carried out: a tab switch sets the displayed tab, a parser strategy replaces the installed parser, and everything else stays |
| SwitchTab.SwitchTabIdempotent | src/main/java/donnafin/logic/commands/SwitchTabCommand.java:47-79 | after the command the view and the router are on the requested tab whatever the state before, so repeating it changes nothing |
| SampleData.Attributes | src/main/java/donnafin/model/util/SampleDataUtil.java:96 | defines a record's attributes as `String.split` of its string on `;;;` |
| SampleData.AttributesInjective | src/main/java/donnafin/model/util/SampleDataUtil.java:96 | strings whose last piece is not empty give different attribute lists when they differ |
| SampleData.PoliciesCollapseTrailingDelimiter | src/main/java/donnafin/model/util/SampleDataUtil.java:94-98 | `getPolicies("a", "a;;;")` holds one policy, not two |
| SampleData.SingleRecords | src/main/java/donnafin/model/util/SampleDataUtil.java:94-116 | a single string gives exactly the one policy, liability or asset built from its pieces |
| SampleData.DistinctBound | src/main/java/donnafin/model/util/SampleDataUtil.java:85-116 | a list has no more distinct strings than entries |
| SampleData.GetTagSet | src/main/java/donnafin/model/util/SampleDataUtil.java:85-89 | one tag per distinct input string, and no other tags |
| SampleData.GetPolicies | src/main/java/donnafin/model/util/SampleDataUtil.java:94-98 | every input string gives a policy built from its `String.split` pieces on `;;;`, and every policy comes from an input string; at most as many policies as distinct strings, and exactly as many when every string's last piece is not empty |
| SampleData.GetAssets | src/main/java/donnafin/model/util/SampleDataUtil.java:103-107 | every input string gives a asset built from its `String.split` pieces on `;;;`, and every asset comes from an input string; at most as many assets as distinct strings, and exactly as many when every string's last piece is not empty |
| SampleData.GetLiabilities | src/main/java/donnafin/model/util/SampleDataUtil.java:112-116 | every input string gives a liability built from its `String.split` pieces on `;;;`, and every liability comes from an input string; at most as many liabilities as distinct strings, and exactly as many when every string's last piece is not empty |
| SampleData.SamplePolicyAttributes | src/main/java/donnafin/model/util/SampleDataUtil.java:32-33 | the sample policy string splits into its five attributes, in order |
| SampleData.SampleLiabilityAttributes | src/main/java/donnafin/model/util/SampleDataUtil.java:34 | the sample liability string splits into its four attributes, in order |
| SampleData.SampleAssetAttributes | src/main/java/donnafin/model/util/SampleDataUtil.java:35 | the sample asset string splits into its four attributes, in order |
| SampleData.SamplePerson | src/main/java/donnafin/model/util/SampleDataUtil.java:29-35 | a sample person has the given name, phone, email, address and notes, exactly the given tags, and exactly one policy, liability and asset, each built from its string |
| SampleData.SampleContactNamesDistinct | src/main/java/donnafin/model/util/SampleDataUtil.java:29-70 | the six sample names are pairwise different |
| SampleData.GetSamplePersons | src/main/java/donnafin/model/util/SampleDataUtil.java:27-72 | six persons with pairwise different names |
| SampleData.SamplePersonsRecords | src/main/java/donnafin/model/util/SampleDataUtil.java:27-72 | every sample person holds exactly the sample policy, liability and asset, with their attributes in order |
| SampleData.AddPersons | src/main/java/donnafin/model/util/SampleDataUtil.java:76-78 | adding persons with unique names one by one to an empty book leaves exactly those persons in the book, in order |
| SampleData.GetSampleAddressBook | src/main/java/donnafin/model/util/SampleDataUtil.java:74-80 | a fresh book that holds exactly the sample persons, in array order, with unique names |

## Left out

- Null arguments and `requireNonNull`/`requireAllNonNull` checks are not modelled: Dafny values cannot be null. `Persons.IsSamePerson` takes `None` for a null argument.
- The `Person` constructor's defensive copy of the tag set and `getTags`' read-only view have no member of their own. In this model a person is an immutable value, so its tags are the argument's contents and cannot be changed through the result.
- `hashCode` of `Person` and of `RemoveCommand` is not modelled: its values say nothing a proof could use.
- The `Consumer<Ui>` and `Consumer<Logic>` closures are returned as data (`Commands.UiAction`, `Commands.LogicAction`). Their effect on the displayed tab and the installed parser is modelled as data by `SwitchTab.Perform`. The rest of what the user interface does with them is not modelled, and neither is the `ParseException` they log and swallow.
- The JavaFX observable list of `getAllAttributesList` is a plain sequence.
- `PersonAdapter`, `AddressBook` and `Model` are not part of this model. `Store` gives them the smallest contracts the commands rely on:
  - the book's names are unique;
  - the adapter's subject is in the book;
  - an edit replaces the subject in place and keeps its name.
  The failure of an edit when the subject has vanished from the book is excluded by the adapter's invariant.
- `PersonAdapter.equals` is not part of this model. `Remove.Equals` compares adapters by identity.
- `Policy`, `Liability`, `Asset`, `Money` and `Tag` validation is not part of this model, and the sample records are not claimed to be valid. Their string forms are the `Remove.Renderers` parameters.
- Records are taken to be equal when their attribute lists are; the record classes are not modelled.
- `Remove.RemoveWithOrder`: the order among records with the same string form is the set's iteration order. The contract therefore fixes the removed element only up to such ties. It pins the element to the canonical position only when the string form is injective, via `Ordering.RemovedAtCanonical`.
- `String.split` is modelled as a split on the literal delimiter followed by dropping trailing empty pieces (`Text.SplitTrimmed`). Its regular-expression semantics are not modelled; `;;;` contains no regular-expression metacharacter.
- SampleData.GetPolicies, SampleData.GetAssets, SampleData.GetLiabilities: the number of records equals the number of distinct strings only when every string's last piece is not empty, because `String.split` drops trailing empty pieces and so merges strings such as `"a"` and `"a;;;"` (`SampleData.PoliciesCollapseTrailingDelimiter`). Otherwise the contract promises only at most that many.
- Strings are compared as sequences of Dafny characters. Java compares UTF-16 code units, which differs only outside the basic multilingual plane.
- `Person.toString` renders name, phone, email, address and notes by the text they wrap, and the view command's success message renders the name the same way (`View.Execute`). Their own `toString` methods are not part of this model. A tag's string form is not part of this model either: `Persons.ToString` takes it as a parameter.
- `MESSAGE_INVALID_PERSON_DISPLAYED_INDEX` is kept as a named message: the message catalogue it comes from is not part of this model.
- `ViewCommand` receives the filtered person list as a parameter. The model's filtering is not modelled; `View.Execute` requires only that every person in the list is in the book.
- The tab parsers are modelled only as which tab they serve and which adapter they hold. Their grammars are not part of this model.
