/** Sample data: the record sets built from delimiter-separated attribute
    strings, the six sample persons and an address book holding them. */
module SampleData {
  import opened Text
  import opened Persons
  import opened Store

  const ATTRIBUTE_DELIMITER := ";;;"

  /** The distinct strings of a list. */
  function Distinct(strings: seq<string>): (r: set<string>)
    ensures forall s :: s in r <==> s in strings
  {
    set s | s in strings
  }

  /** A list has at least as many entries as it has distinct ones. */
  lemma {:induction false} DistinctBound(strings: seq<string>)
    ensures |Distinct(strings)| <= |strings|
  {
    if strings != [] {
      DistinctBound(strings[1..]);
      assert Distinct(strings) == Distinct(strings[1..]) + {strings[0]};
    }
  }

  /** A map never enlarges a set, and an injective map keeps its size. */
  lemma {:induction false} ImageSize<B>(xs: set<string>, f: string -> B)
    ensures |set x | x in xs :: f(x)| <= |xs|
    ensures (forall x, y :: x in xs && y in xs && f(x) == f(y) ==> x == y) ==> |set x | x in xs :: f(x)| == |xs|
    decreases xs
  {
    if xs != {} {
      var x :| x in xs;
      ImageSize(xs - {x}, f);
      assert (set y | y in xs :: f(y)) == (set y | y in xs - {x} :: f(y)) + {f(x)};
      if forall u, v :: u in xs && v in xs && f(u) == f(v) ==> u == v {
        assert f(x) !in (set y | y in xs - {x} :: f(y));
      }
    }
  }

  /** The attribute strings of one record, split as `String.split` does. */
  function Attributes(s: string): seq<string>
  {
    SplitTrimmed(s, ATTRIBUTE_DELIMITER)
  }

  /** Strings whose last piece is not empty have distinct attributes. */
  lemma AttributesInjective(strings: seq<string>)
    ensures (forall s :: s in strings ==> EndsWithPiece(s, ATTRIBUTE_DELIMITER)) ==>
      forall x, y :: x in strings && y in strings && Attributes(x) == Attributes(y) ==> x == y
  {
    if forall s :: s in strings ==> EndsWithPiece(s, ATTRIBUTE_DELIMITER) {
      forall x, y | x in strings && y in strings && Attributes(x) == Attributes(y)
        ensures x == y
      {
        SplitTrimmedInjective(x, y, ATTRIBUTE_DELIMITER);
      }
    }
  }

  /** One tag per distinct string. */
  function GetTagSet(strings: seq<string>): (r: set<Tag>)
    ensures forall t :: t in r <==> t.tagName in strings
    ensures |r| == |Distinct(strings)| <= |strings|
  {
    var r := set s | s in strings :: Tag(s);
    assert r == set s | s in Distinct(strings) :: Tag(s);
    var f := s => Tag(s);
    assert r == set x | x in Distinct(strings) :: f(x);
    ImageSize(Distinct(strings), f);
    DistinctBound(strings);
    r
  }

  /** One policy per string, built from its pieces between delimiters;
      strings with the same pieces give one policy. */
  function GetPolicies(strings: seq<string>): (r: set<Policy>)
    ensures forall s :: s in strings ==> Policy(Attributes(s)) in r
    ensures forall p :: p in r ==> exists s :: s in strings && p == Policy(Attributes(s))
    ensures |r| <= |Distinct(strings)| <= |strings|
    ensures (forall s :: s in strings ==> EndsWithPiece(s, ATTRIBUTE_DELIMITER)) ==> |r| == |Distinct(strings)|
  {
    var r := set s | s in strings :: Policy(Attributes(s));
    assert r == set s | s in Distinct(strings) :: Policy(Attributes(s));
    var f := s => Policy(Attributes(s));
    assert r == set x | x in Distinct(strings) :: f(x);
    AttributesInjective(strings);
    ImageSize(Distinct(strings), f);
    DistinctBound(strings);
    r
  }

  /** One asset per string, built from its pieces between delimiters;
      strings with the same pieces give one asset. */
  function GetAssets(strings: seq<string>): (r: set<Asset>)
    ensures forall s :: s in strings ==> Asset(Attributes(s)) in r
    ensures forall a :: a in r ==> exists s :: s in strings && a == Asset(Attributes(s))
    ensures |r| <= |Distinct(strings)| <= |strings|
    ensures (forall s :: s in strings ==> EndsWithPiece(s, ATTRIBUTE_DELIMITER)) ==> |r| == |Distinct(strings)|
  {
    var r := set s | s in strings :: Asset(Attributes(s));
    assert r == set s | s in Distinct(strings) :: Asset(Attributes(s));
    var f := s => Asset(Attributes(s));
    assert r == set x | x in Distinct(strings) :: f(x);
    AttributesInjective(strings);
    ImageSize(Distinct(strings), f);
    DistinctBound(strings);
    r
  }

  /** One liability per string, built from its pieces between delimiters;
      strings with the same pieces give one liability. */
  function GetLiabilities(strings: seq<string>): (r: set<Liability>)
    ensures forall s :: s in strings ==> Liability(Attributes(s)) in r
    ensures forall l :: l in r ==> exists s :: s in strings && l == Liability(Attributes(s))
    ensures |r| <= |Distinct(strings)| <= |strings|
    ensures (forall s :: s in strings ==> EndsWithPiece(s, ATTRIBUTE_DELIMITER)) ==> |r| == |Distinct(strings)|
  {
    var r := set s | s in strings :: Liability(Attributes(s));
    assert r == set s | s in Distinct(strings) :: Liability(Attributes(s));
    var f := s => Liability(Attributes(s));
    assert r == set x | x in Distinct(strings) :: f(x);
    AttributesInjective(strings);
    ImageSize(Distinct(strings), f);
    DistinctBound(strings);
    r
  }

  /** Two strings with the same pieces give one policy. */
  lemma PoliciesOfSamePieces(s: string, t: string)
    requires Attributes(s) == Attributes(t)
    ensures GetPolicies([s, t]) == {Policy(Attributes(s))}
  {
    var r := GetPolicies([s, t]);
    forall q | q in r
      ensures q == Policy(Attributes(s))
    {
      var u :| u in [s, t] && q == Policy(Attributes(u));
    }
  }

  /** A string and the same string followed by the delimiter give one policy. */
  lemma PoliciesCollapseTrailingDelimiter()
    ensures |GetPolicies(["a", "a;;;"])| == 1
  {
    SplitTrimmedMerges();
    PoliciesOfSamePieces("a", "a;;;");
  }

  /** The attributes of the sample records, and their strings: the
      attributes joined by the delimiter. */
  const SAMPLE_POLICY_ATTRIBUTES := ["Policy name", "Policy insurer", "policy total value insured",
                                    "policy yearly premiums", "policy commission"]
  const SAMPLE_LIABILITY_ATTRIBUTES := ["liability name", "liability type", "liability value", "liability remarks"]
  const SAMPLE_ASSET_ATTRIBUTES := ["asset name", "asset type", "asset value", "asset remarks"]
  const SAMPLE_POLICY := Join(SAMPLE_POLICY_ATTRIBUTES, ATTRIBUTE_DELIMITER)
  const SAMPLE_LIABILITY := Join(SAMPLE_LIABILITY_ATTRIBUTES, ATTRIBUTE_DELIMITER)
  const SAMPLE_ASSET := Join(SAMPLE_ASSET_ATTRIBUTES, ATTRIBUTE_DELIMITER)

  /** The sample policy string splits into its five attributes. */
  lemma SamplePolicyAttributes()
    ensures Attributes(SAMPLE_POLICY) == SAMPLE_POLICY_ATTRIBUTES
    ensures |Attributes(SAMPLE_POLICY)| == 5
  {
    var d := ATTRIBUTE_DELIMITER;
    assert FreeOf("Policy name", d) && FreeOf("Policy insurer", d) && FreeOf("policy total value insured", d)
      && FreeOf("policy yearly premiums", d) && FreeOf("policy commission", d);
    SplitTrimmedJoin(SAMPLE_POLICY_ATTRIBUTES, d);
  }

  /** The sample liability string splits into its four attributes. */
  lemma SampleLiabilityAttributes()
    ensures Attributes(SAMPLE_LIABILITY) == SAMPLE_LIABILITY_ATTRIBUTES
    ensures |Attributes(SAMPLE_LIABILITY)| == 4
  {
    var d := ATTRIBUTE_DELIMITER;
    assert FreeOf("liability name", d) && FreeOf("liability type", d) && FreeOf("liability value", d)
      && FreeOf("liability remarks", d);
    SplitTrimmedJoin(SAMPLE_LIABILITY_ATTRIBUTES, d);
  }

  /** The sample asset string splits into its four attributes. */
  lemma SampleAssetAttributes()
    ensures Attributes(SAMPLE_ASSET) == SAMPLE_ASSET_ATTRIBUTES
    ensures |Attributes(SAMPLE_ASSET)| == 4
  {
    var d := ATTRIBUTE_DELIMITER;
    assert FreeOf("asset name", d) && FreeOf("asset type", d) && FreeOf("asset value", d)
      && FreeOf("asset remarks", d);
    SplitTrimmedJoin(SAMPLE_ASSET_ATTRIBUTES, d);
  }

  /** The contact details and tags of one sample person. */
  datatype SampleContact = SampleContact(
    name: string, phone: string, email: string, address: string, tags: seq<string>, notes: string)

  /** The contact details of the six sample persons, in order. */
  const SAMPLE_CONTACTS := [
    SampleContact("Alex Yeoh", "87438807", "alexyeoh@example.com",
      "Blk 30 Geylang Street 29, #06-40", ["friends"], "Likes bread"),
    SampleContact("Bernice Yu", "99272758", "berniceyu@example.com",
      "Blk 30 Lorong 3 Serangoon Gardens, #07-18", ["colleagues", "friends"], "Has 2 children"),
    SampleContact("Charlotte Oliveiro", "93210283", "charlotte@example.com",
      "Blk 11 Ang Mo Kio Street 74, #11-04", ["neighbours"], ""),
    SampleContact("David Li", "91031282", "lidavid@example.com",
      "Blk 436 Serangoon Gardens Street 26, #16-43", ["family"], ""),
    SampleContact("Irfan Ibrahim", "92492021", "irfan@example.com",
      "Blk 47 Tampines Street 20, #17-35", ["classmates"], ""),
    SampleContact("Roy Balakrishnan", "92624417", "royb@example.com",
      "Blk 45 Aljunied Street 85, #11-31", ["colleagues"], "")
  ]

  /** A sample person: the given contact details and tags, and the records
      built from the given policy, liability and asset strings. */
  function SamplePerson(c: SampleContact, policy: string, liability: string, asset: string): (p: Person)
    ensures p.name == Name(c.name)
    ensures p.phone == Phone(c.phone) && p.email == Email(c.email) && p.address == Address(c.address)
    ensures p.notes == Notes(c.notes)
    ensures forall t :: t in p.tags <==> t.tagName in c.tags
    ensures p.policies == {Policy(Attributes(policy))}
    ensures p.liabilities == {Liability(Attributes(liability))}
    ensures p.assets == {Asset(Attributes(asset))}
  {
    SingleRecords(policy, liability, asset);
    Person(Name(c.name), Phone(c.phone), Email(c.email), Address(c.address), GetTagSet(c.tags), Notes(c.notes),
      GetPolicies([policy]), GetLiabilities([liability]), GetAssets([asset]))
  }

  /** One string gives exactly the one record built from its pieces. */
  lemma SingleRecords(policy: string, liability: string, asset: string)
    ensures GetPolicies([policy]) == {Policy(Attributes(policy))}
    ensures GetLiabilities([liability]) == {Liability(Attributes(liability))}
    ensures GetAssets([asset]) == {Asset(Attributes(asset))}
  {
    assert forall q :: q in GetPolicies([policy]) ==> q == Policy(Attributes(policy));
    assert forall q :: q in GetLiabilities([liability]) ==> q == Liability(Attributes(liability));
    assert forall q :: q in GetAssets([asset]) ==> q == Asset(Attributes(asset));
  }

  /** No two sample contacts share a name. */
  lemma SampleContactNamesDistinct()
    ensures forall i, j :: 0 <= i < j < |SAMPLE_CONTACTS| ==> SAMPLE_CONTACTS[i].name != SAMPLE_CONTACTS[j].name
  {
  }

  /** The six sample persons, in order. Their names are pairwise different. */
  function GetSamplePersons(): (r: seq<Person>)
    ensures |r| == 6
    ensures DistinctNames(r)
  {
    SampleContactNamesDistinct();
    seq(|SAMPLE_CONTACTS|, i requires 0 <= i < |SAMPLE_CONTACTS| =>
      SamplePerson(SAMPLE_CONTACTS[i], SAMPLE_POLICY, SAMPLE_LIABILITY, SAMPLE_ASSET))
  }

  /** Every sample person holds exactly the sample policy, liability and
      asset, each with its attributes in order. */
  lemma SamplePersonsRecords()
    ensures forall p :: p in GetSamplePersons() ==>
              && p.policies == {Policy(SAMPLE_POLICY_ATTRIBUTES)}
              && p.liabilities == {Liability(SAMPLE_LIABILITY_ATTRIBUTES)}
              && p.assets == {Asset(SAMPLE_ASSET_ATTRIBUTES)}
  {
    SamplePolicyAttributes();
    SampleLiabilityAttributes();
    SampleAssetAttributes();
  }

  /** Adds `persons` to `book` one by one, in order. */
  method AddPersons(book: AddressBook, persons: seq<Person>)
    requires book.Valid() && book.persons == [] && DistinctNames(persons)
    modifies book
    ensures book.Valid() && book.persons == persons
  {
    for k := 0 to |persons|
      invariant book.Valid()
      invariant book.persons == persons[..k]
    {
      assert forall q :: q in persons[..k] ==> q.name != persons[k].name;
      book.AddPerson(persons[k]);
      assert persons[..k + 1] == persons[..k] + [persons[k]];
    }
    assert persons[..|persons|] == persons;
  }

  /** An address book holding every sample person, in order. */
  method GetSampleAddressBook() returns (book: AddressBook)
    ensures fresh(book) && book.Valid()
    ensures book.persons == GetSamplePersons()
  {
    book := new AddressBook();
    AddPersons(book, GetSamplePersons());
  }
}
