/** The shared person store and the adapter through which a command edits one
    person. Neither class is modelled beyond the contracts the commands rely
    on. */
module Store {
  import opened Persons

  /** No two persons in the list share a name. */
  ghost predicate DistinctNames(persons: seq<Person>)
  {
    forall i, j :: 0 <= i < j < |persons| ==> persons[i].name != persons[j].name
  }

  /** The position of `p` in `persons`. */
  function IndexOf(persons: seq<Person>, p: Person): (k: nat)
    requires p in persons
    ensures k < |persons| && persons[k] == p
  {
    if persons[0] == p then 0 else 1 + IndexOf(persons[1..], p)
  }

  /** The field of a person a command targets. */
  datatype PersonField = CONTACT | POLICIES | LIABILITIES | ASSETS | NOTES

  /** The address book: a list of persons with unique names. */
  class AddressBook {
    var persons: seq<Person>

    ghost predicate Valid()
      reads this
    {
      DistinctNames(persons)
    }

    constructor ()
      ensures Valid() && persons == []
    {
      persons := [];
    }

    /** Some person in the book has the same name as `p`. */
    predicate HasPerson(p: Person)
      reads this
    {
      exists q :: q in persons && q.name == p.name
    }

    /** Appends `p`; the book must not hold a person of the same name. */
    method AddPerson(p: Person)
      requires Valid() && !HasPerson(p)
      modifies this
      ensures Valid() && persons == old(persons) + [p]
    {
      persons := persons + [p];
    }
  }

  /** One person of an address book, open for editing. */
  class PersonAdapter {
    const book: AddressBook
    var subject: Person

    /** The subject is in the book. */
    ghost predicate Valid()
      reads this, book
    {
      book.Valid() && subject in book.persons
    }

    /** An adapter bound to a person of a valid book is valid. */
    constructor (book: AddressBook, subject: Person)
      ensures this.book == book && this.subject == subject
      ensures book.Valid() && subject in book.persons ==> Valid()
    {
      this.book := book;
      this.subject := subject;
    }

    /** Replaces the subject, in place in the book, with `edited`, which
        keeps the subject's name. */
    method Commit(edited: Person)
      requires Valid() && edited.name == subject.name
      modifies this, book
      ensures Valid()
      ensures subject == edited
      ensures book.persons == old(book.persons)[IndexOf(old(book.persons), old(subject)) := edited]
    {
      var k := IndexOf(book.persons, subject);
      book.persons := book.persons[k := edited];
      subject := edited;
      assert book.persons[k] == subject;
    }

    method EditPolicies(policies: set<Policy>)
      requires Valid()
      modifies this, book
      ensures Valid()
      ensures subject == old(subject).(policies := policies)
      ensures book.persons == old(book.persons)[IndexOf(old(book.persons), old(subject)) := subject]
    {
      Commit(subject.(policies := policies));
    }

    method EditLiabilities(liabilities: set<Liability>)
      requires Valid()
      modifies this, book
      ensures Valid()
      ensures subject == old(subject).(liabilities := liabilities)
      ensures book.persons == old(book.persons)[IndexOf(old(book.persons), old(subject)) := subject]
    {
      Commit(subject.(liabilities := liabilities));
    }

    method EditAssets(assets: set<Asset>)
      requires Valid()
      modifies this, book
      ensures Valid()
      ensures subject == old(subject).(assets := assets)
      ensures book.persons == old(book.persons)[IndexOf(old(book.persons), old(subject)) := subject]
    {
      Commit(subject.(assets := assets));
    }
  }
}
