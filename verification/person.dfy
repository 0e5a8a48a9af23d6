/** A client of the address book: an immutable aggregate of identity fields,
    tags, notes and three financial record collections. */
module Persons {
  import opened Base
  import opened Ordering

  /** The validated field types. Each is modelled by the text it wraps, which is
      also its string form. */
  datatype Name = Name(fullName: string)
  datatype Phone = Phone(value: string)
  datatype Email = Email(value: string)
  datatype Address = Address(value: string)
  datatype Notes = Notes(value: string)
  datatype Tag = Tag(tagName: string)

  /** The financial records, modelled by the attribute strings they are built
      from, in order. */
  datatype Policy = Policy(attributes: seq<string>)
  datatype Liability = Liability(attributes: seq<string>)
  datatype Asset = Asset(attributes: seq<string>)

  /** The attributes a person lists for display. */
  datatype Attribute =
    | NameAttribute(name: Name)
    | PhoneAttribute(phone: Phone)
    | EmailAttribute(email: Email)
    | AddressAttribute(address: Address)

  /** A person. Built wholesale; an edit builds a new person. */
  datatype Person = Person(
    name: Name,
    phone: Phone,
    email: Email,
    address: Address,
    tags: set<Tag>,
    notes: Notes,
    policies: set<Policy>,
    liabilities: set<Liability>,
    assets: set<Asset>)

  /** The weak equality: the other person (`None` for null) has the same name. */
  predicate IsSamePerson(p: Person, other: Option<Person>)
  {
    other.Some? && other.value.name == p.name
  }

  /** The strong equality: the other object is a person agreeing on name,
      phone, email, address, tags and notes. The three record collections take
      no part in it. */
  predicate Equals(p: Person, other: Other<Person>)
  {
    match other
    case NotInstance => false
    case Instance(q) =>
      && q.name == p.name
      && q.phone == p.phone
      && q.email == p.email
      && q.address == p.address
      && q.tags == p.tags
      && q.notes == p.notes
  }

  /** Strong equality implies weak equality, and every person is equal to
      itself in both senses. */
  lemma EqualsImpliesSamePerson(p: Person, other: Other<Person>)
    ensures Equals(p, other) ==> IsSamePerson(p, Some(other.value))
    ensures Equals(p, Instance(p)) && IsSamePerson(p, Some(p))
  {
  }

  /** Both equalities are symmetric and transitive. */
  lemma EqualitiesAreEquivalences(p: Person, q: Person, r: Person)
    ensures IsSamePerson(p, Some(q)) ==> IsSamePerson(q, Some(p))
    ensures IsSamePerson(p, Some(q)) && IsSamePerson(q, Some(r)) ==> IsSamePerson(p, Some(r))
    ensures Equals(p, Instance(q)) ==> Equals(q, Instance(p))
    ensures Equals(p, Instance(q)) && Equals(q, Instance(r)) ==> Equals(p, Instance(r))
  {
  }

  /** Two persons that differ only in their records are equal: `Equals` is
      strictly weaker than equality of the whole value. */
  lemma EqualsIgnoresRecords(p: Person, policy: Policy)
    requires policy !in p.policies
    ensures Equals(p, Instance(p.(policies := p.policies + {policy})))
    ensures p != p.(policies := p.policies + {policy})
  {
  }

  /** The tags written one after another, in the given iteration order, each
      in its string form `showTag`. */
  function TagsText(order: seq<Tag>, showTag: Tag -> string): string
  {
    if order == [] then "" else showTag(order[0]) + TagsText(order[1..], showTag)
  }

  /** The identity part of the string form. */
  function Header(p: Person): string
  {
    p.name.fullName + "; Phone: " + p.phone.value + "; Email: " + p.email.value
      + "; Address: " + p.address.value
  }

  /** The string form of `p`, where `tagOrder` is the order in which the tag
      set happens to be iterated and `showTag` is the string form of a tag. */
  function ToString(p: Person, tagOrder: seq<Tag>, showTag: Tag -> string): string
    requires Enumerates(tagOrder, p.tags)
  {
    Header(p)
      + (if p.tags != {} then "; Tags: " + TagsText(tagOrder, showTag) else "")
      + "; Notes: " + p.notes.value
  }

  /** The string form starts with the name and the labelled phone, email and
      address, ends with the labelled notes, and holds a tags part exactly
      when the person has tags. */
  lemma ToStringShape(p: Person, tagOrder: seq<Tag>, showTag: Tag -> string)
    requires Enumerates(tagOrder, p.tags)
    ensures var s := ToString(p, tagOrder, showTag);
      && |Header(p)| <= |s|
      && s[..|Header(p)|] == Header(p)
      && s[..|p.name.fullName|] == p.name.fullName
      && |s| >= |"; Notes: " + p.notes.value|
      && s[|s| - |"; Notes: " + p.notes.value|..] == "; Notes: " + p.notes.value
      && (p.tags == {} <==> s == Header(p) + "; Notes: " + p.notes.value)
  {
  }

  /** With at most one tag every iteration order gives the same string form. */
  lemma ToStringDeterministicForOneTag(p: Person, order1: seq<Tag>, order2: seq<Tag>, showTag: Tag -> string)
    requires Enumerates(order1, p.tags) && Enumerates(order2, p.tags)
    requires |p.tags| <= 1
    ensures ToString(p, order1, showTag) == ToString(p, order2, showTag)
  {
    EnumerationLength(order1, p.tags);
    EnumerationLength(order2, p.tags);
    if |p.tags| == 1 {
      assert order1[0] in multiset(order2);
      assert order1 == [order1[0]] && order2 == [order2[0]];
    }
  }

  /** Name, phone, email and address, in that order. */
  function AllAttributes(p: Person): (r: seq<Attribute>)
    ensures |r| == 4
    ensures r[0].NameAttribute? && r[1].PhoneAttribute? && r[2].EmailAttribute? && r[3].AddressAttribute?
    ensures r[0].name == p.name && r[1].phone == p.phone && r[2].email == p.email && r[3].address == p.address
  {
    [NameAttribute(p.name), PhoneAttribute(p.phone), EmailAttribute(p.email), AddressAttribute(p.address)]
  }

  /** The attribute list agrees with both equalities: its head decides the weak
      one, and strongly equal persons list the same attributes. */
  lemma AllAttributesAgree(p: Person, q: Person)
    ensures AllAttributes(p)[0] == AllAttributes(q)[0] <==> IsSamePerson(p, Some(q))
    ensures Equals(p, Instance(q)) ==> AllAttributes(p) == AllAttributes(q)
  {
  }
}
