/**
  The four cases of the differ's test suite, on concrete schemas. Every schema
  holds the shared query root `Query { field1 }` and a stand-in for the
  built-in `String` scalar (described, identical on both sides) ahead of the
  type under test, as the source's schema type map does; both must stay
  silent so that the interesting record is the first one.
 */
module Scenarios {
  import opened Schema
  import opened Messages
  import opened DescriptionDiffer

  const Field1: Member := Member("field1", None)
  const QueryType: NamedType := NamedType("Query", None, [Field1])
  /** Stands for the built-in scalar, whose own description is not reproduced here. */
  const StringScalar: NamedType := NamedType("String", Some("built-in scalar description"), [])

  /** A schema whose extra types follow the query root and the scalar. */
  function WithTypes(types: seq<NamedType>): Schema
  {
    [QueryType, StringScalar] + types
  }

  const Plain: NamedType := NamedType("Type", None, [Field1])
  const Rather: NamedType := NamedType("Type", Some("Something rather"), [Field1])
  const Else: NamedType := NamedType("Type", Some("Something else"), [Field1])
  const WithField2: NamedType :=
    NamedType("Type", None, [Field1, Member("field2", Some("Something rather"))])

  /** The shared query root and scalar report nothing, whatever follows them. */
  lemma SharedTypesSilent(oldTypes: seq<NamedType>)
    requires forall t :: t in oldTypes ==> t.name != "Query" && t.name != "String"
    ensures TypeChanges(WithTypes(oldTypes), [QueryType, StringScalar]) == []
  {
    var prior := WithTypes(oldTypes);
    assert "Query" != "String";
    assert FindType(prior, "Query") == Some(QueryType);
    assert FindType(prior, "String") == Some(StringScalar);
    assert FindMember(QueryType.members, "field1") == Some(Field1);
    assert TypeBlock(prior, QueryType) == [];
    assert TypeBlock(prior, StringScalar) == [];
  }

  /** The differ on two schemas that share the query root and scalar reduces to
      the types that follow them. */
  lemma ReducesToTail(oldTypes: seq<NamedType>, newTypes: seq<NamedType>)
    requires forall t :: t in oldTypes ==> t.name != "Query" && t.name != "String"
    ensures FindDescriptionChanges(WithTypes(oldTypes), WithTypes(newTypes))
            == TypeChanges(WithTypes(oldTypes), newTypes)
  {
    SharedTypesSilent(oldTypes);
    TypeChangesAppend(WithTypes(oldTypes), [QueryType, StringScalar], newTypes);
  }

  /** Each test schema has unique names at every level. */
  lemma WithTypesWellFormed(t: NamedType)
    requires t.name == "Type"
    requires UniqueMemberNames(t.members)
    ensures WellFormed(WithTypes([t]))
    ensures WellFormed(WithTypes([]))
  {
    assert "Query" != "String" && "Query" != "Type" && "String" != "Type";
  }

  /** A test schema whose type under test is `t`, compared with itself, reports nothing. */
  lemma TestSchemaSelfEmpty(t: NamedType)
    requires t.name == "Type"
    requires UniqueMemberNames(t.members)
    ensures FindDescriptionChanges(WithTypes([t]), WithTypes([t])) == []
    ensures FindDescriptionChanges(WithTypes([]), WithTypes([])) == []
  {
    WithTypesWellFormed(t);
    SelfComparisonEmpty(WithTypes([t]));
    SelfComparisonEmpty(WithTypes([]));
  }

  // The four sentences the tests expect are exactly what the templates render.

  /** Appending a three-part string regroups freely. */
  lemma AppendAssoc(a: string, b: string, c: string, d: string)
    ensures a + (b + c + d) == a + b + c + d
  {
  }

  lemma AddedSentence()
    ensures Record(Change(Added, Type, "Type")) == ChangeRecord("Description added on TYPE Type.")
  {
    assert AddedPrefix + Subject(Type, "Type") == "Description added on TYPE Type";
    assert "Description added on TYPE Type" + Period == "Description added on TYPE Type.";
  }

  lemma ChangedSentence()
    ensures Record(Change(Changed, Type, "Type")) == ChangeRecord("Description changed on TYPE Type.")
  {
    assert ChangedPrefix + Subject(Type, "Type") == "Description changed on TYPE Type";
    assert "Description changed on TYPE Type" + Period == "Description changed on TYPE Type.";
  }

  lemma NewTypeSentence()
    ensures Record(Change(Introduced, Type, "Type")) == ChangeRecord("New TYPE Type added with description.")
  {
    assert NewPrefix + Subject(Type, "Type") == "New TYPE Type";
    assert "New TYPE Type" + " added" == "New TYPE Type added";
    assert "New TYPE Type added" + " with" == "New TYPE Type added with";
    assert "New TYPE Type added with" + " description." == "New TYPE Type added with description.";
    assert NewSuffix == " added" + " with" + " description.";
    AppendAssoc(NewPrefix + Subject(Type, "Type"), " added", " with", " description.");
  }

  lemma NewFieldSentence()
    ensures Record(Change(Introduced, Field, "field2")) == ChangeRecord("New FIELD field2 added with description.")
  {
    assert NewPrefix + Subject(Field, "field2") == "New FIELD field2";
    assert "New FIELD field2" + " added" == "New FIELD field2 added";
    assert "New FIELD field2 added" + " with" == "New FIELD field2 added with";
    assert "New FIELD field2 added with" + " description." == "New FIELD field2 added with description.";
    assert NewSuffix == " added" + " with" + " description.";
    AppendAssoc(NewPrefix + Subject(Field, "field2"), " added", " with", " description.");
  }

  /** In a test schema, the type under test is found by its name. */
  lemma FindTypeUnderTest(t: NamedType)
    requires t.name == "Type"
    ensures FindType(WithTypes([t]), "Type") == Some(t)
    ensures FindType(WithTypes([]), "Type") == None
  {
    assert "Query" != "Type" && "String" != "Type";
  }

  // The records of the type under test, past the shared prefix, for any type
  // of the shape each test uses.

  lemma AddedTail(before: NamedType, after: NamedType)
    requires before.name == "Type" && after.name == "Type"
    requires !Described(before.desc) && Described(after.desc)
    requires before.members == after.members && UniqueMemberNames(after.members)
    ensures TypeChanges(WithTypes([before]), [after]) == [Record(Change(Added, Type, "Type"))]
  {
    var prior := WithTypes([before]);
    FindTypeUnderTest(before);
    SameMembersSilent(before, after.members);
    assert TypeChanges(prior, [after]) == TypeBlock(prior, after) + TypeChanges(prior, []);
  }

  lemma ChangedTail(before: NamedType, after: NamedType)
    requires before.name == "Type" && after.name == "Type"
    requires Described(before.desc) && Described(after.desc) && before.desc != after.desc
    requires before.members == after.members && UniqueMemberNames(after.members)
    ensures TypeChanges(WithTypes([before]), [after]) == [Record(Change(Changed, Type, "Type"))]
  {
    var prior := WithTypes([before]);
    FindTypeUnderTest(before);
    SameMembersSilent(before, after.members);
    assert TypeChanges(prior, [after]) == TypeBlock(prior, after) + TypeChanges(prior, []);
  }

  lemma NewTypeTail(t: NamedType)
    requires t.name == "Type" && Described(t.desc)
    ensures TypeChanges(WithTypes([]), [t]) == [Record(Change(Introduced, Type, "Type"))]
  {
    var prior := WithTypes([]);
    FindTypeUnderTest(t);
    assert TypeChanges(prior, [t]) == TypeBlock(prior, t) + TypeChanges(prior, []);
  }

  /** `after` is `before` with one more member `extra`, new and described, at the end. */
  lemma NewFieldTail(before: NamedType, after: NamedType, extra: Member)
    requires before.name == "Type" && after.name == "Type"
    requires !Described(before.desc) && !Described(after.desc)
    requires UniqueMemberNames(before.members)
    requires forall m :: m in before.members ==> m.name != extra.name
    requires after.members == before.members + [extra]
    requires Described(extra.desc)
    ensures TypeChanges(WithTypes([before]), [after]) == [Record(Change(Introduced, Field, extra.name))]
  {
    var prior := WithTypes([before]);
    var rec := Record(Change(Introduced, Field, extra.name));
    assert MemberChanges(before, after.members) == [rec] by {
      SameMembersSilent(before, before.members);
      MemberChangesAround(before, before.members, extra, []);
      assert before.members + [extra] + [] == after.members;
    }
    assert TypeBlock(prior, after) == [rec] by {
      FindTypeUnderTest(before);
    }
    assert TypeChanges(prior, [after]) == TypeBlock(prior, after) + TypeChanges(prior, []);
  }

  // The record list of each test's old/new pair.

  lemma AddedResult()
    ensures FindDescriptionChanges(WithTypes([Plain]), WithTypes([Rather]))
            == [ChangeRecord("Description added on TYPE Type.")]
  {
    ReducesToTail([Plain], [Rather]);
    AddedTail(Plain, Rather);
    AddedSentence();
  }

  lemma ChangedResult()
    ensures FindDescriptionChanges(WithTypes([Rather]), WithTypes([Else]))
            == [ChangeRecord("Description changed on TYPE Type.")]
  {
    assert Rather.desc != Else.desc by {
      assert |"Something rather"| != |"Something else"|;
    }
    ReducesToTail([Rather], [Else]);
    ChangedTail(Rather, Else);
    ChangedSentence();
  }

  lemma NewTypeResult()
    ensures FindDescriptionChanges(WithTypes([]), WithTypes([Rather]))
            == [ChangeRecord("New TYPE Type added with description.")]
  {
    ReducesToTail([], [Rather]);
    NewTypeTail(Rather);
    NewTypeSentence();
  }

  lemma NewFieldResult()
    ensures FindDescriptionChanges(WithTypes([Plain]), WithTypes([WithField2]))
            == [ChangeRecord("New FIELD field2 added with description.")]
  {
    var field2 := WithField2.members[1];
    assert Field1.name != field2.name;
    assert WithField2.members == Plain.members + [field2];
    ReducesToTail([Plain], [WithField2]);
    NewFieldTail(Plain, WithField2, field2);
    NewFieldSentence();
  }

  /** Field names of the new-field test are distinct. */
  lemma WithField2Unique()
    ensures UniqueMemberNames(WithField2.members)
  {
    assert "field1" != "field2";
  }

  /** A description added to a type present in both schemas. */
  lemma DescriptionAddedOnType()
    ensures FindDescriptionChanges(WithTypes([Plain]), WithTypes([Rather]))
            == [ChangeRecord("Description added on TYPE Type.")]
    ensures FindDescriptionChanges(WithTypes([Plain]), WithTypes([Rather]))[0].description
            == "Description added on TYPE Type."
    ensures FindDescriptionChanges(WithTypes([Plain]), WithTypes([Plain])) == []
    ensures FindDescriptionChanges(WithTypes([Rather]), WithTypes([Rather])) == []
  {
    AddedResult();
    TestSchemaSelfEmpty(Plain);
    TestSchemaSelfEmpty(Rather);
  }

  /** A type's description changed to a different non-empty text. */
  lemma DescriptionChangedOnType()
    ensures FindDescriptionChanges(WithTypes([Rather]), WithTypes([Else]))
            == [ChangeRecord("Description changed on TYPE Type.")]
    ensures FindDescriptionChanges(WithTypes([Rather]), WithTypes([Else]))[0].description
            == "Description changed on TYPE Type."
    ensures FindDescriptionChanges(WithTypes([Rather]), WithTypes([Rather])) == []
    ensures FindDescriptionChanges(WithTypes([Else]), WithTypes([Else])) == []
  {
    ChangedResult();
    TestSchemaSelfEmpty(Rather);
    TestSchemaSelfEmpty(Else);
  }

  /** A type new in the new schema that carries a description. */
  lemma NewTypeWithDescription()
    ensures FindDescriptionChanges(WithTypes([]), WithTypes([Rather]))
            == [ChangeRecord("New TYPE Type added with description.")]
    ensures FindDescriptionChanges(WithTypes([]), WithTypes([Rather]))[0].description
            == "New TYPE Type added with description."
    ensures FindDescriptionChanges(WithTypes([]), WithTypes([])) == []
    ensures FindDescriptionChanges(WithTypes([Rather]), WithTypes([Rather])) == []
  {
    NewTypeResult();
    TestSchemaSelfEmpty(Rather);
  }

  /** A described field added to a type present in both schemas; the sentence
      names the field alone, not qualified by its type. */
  lemma NewFieldWithDescription()
    ensures FindDescriptionChanges(WithTypes([Plain]), WithTypes([WithField2]))
            == [ChangeRecord("New FIELD field2 added with description.")]
    ensures FindDescriptionChanges(WithTypes([Plain]), WithTypes([WithField2]))[0].description
            == "New FIELD field2 added with description."
    ensures FindDescriptionChanges(WithTypes([Plain]), WithTypes([Plain])) == []
    ensures FindDescriptionChanges(WithTypes([WithField2]), WithTypes([WithField2])) == []
  {
    NewFieldResult();
    TestSchemaSelfEmpty(Plain);
    WithField2Unique();
    TestSchemaSelfEmpty(WithField2);
  }
}
