# Description differ of graphql-js, modelled in Dafny

This project models `findDescriptionChanges(oldSchema, newSchema)` from graphql-js.
The function compares two schema snapshots and lists, in order, every documentation
string that was added, changed, or introduced together with a new entity.

- It walks the named types of the new schema in type-map order.
- It matches each type by name against the old schema.
- For each matched type, it matches the type's fields by name against the old type's fields.
- Each finding becomes a record whose only field, `description`, holds one of three sentences:
  - `Description added on <KIND> <name>.`
  - `Description changed on <KIND> <name>.`
  - `New <KIND> <name> added with description.`
- `<KIND>` is `TYPE` or `FIELD`. `<name>` is the entity's own name; a field's name is not
  qualified by its type.

The implementation file `src/utilities/findDescriptionChanges.js` is not part of this
model. The behaviour modelled is the one the test suite
`src/utilities/__tests__/findDescriptionChanges-test.js` fixes: a three-way comparison
per entity. Where the tests leave a case open, the model makes a choice, and each such
choice is listed under "Left out".

Files:

- `schema.dfy` (module `Schema`) holds the snapshots:
  - `Member` and `NamedType`, each with a name and an optional description;
  - a schema as a sequence of named types;
  - lookup by name;
  - well-formedness, meaning names are unique at every level.
- `messages.dfy` (module `Messages`) holds the change records and the three sentence templates.
  Rendering is injective, and the decoder `Decode` inverts it (`DecodeEncode`).
- `differ.dfy` (module `DescriptionDiffer`) holds the differ and its general properties.
- `scenarios.dfy` (module `Scenarios`) holds the four test cases as lemmas about concrete schemas.

A description counts as present only when it is there and not the empty string. This matches
JavaScript, where an absent description and an empty one are both falsy.

## Model

| member | source | states |
|---|---|---|
| Schema.FindType | src/utilities/__tests__/findDescriptionChanges-test.js:38-45 | Looking a type up by name returns a type of the schema with that name, and returns nothing exactly when no type of the schema has that name. |
| Schema.FindTypeOwnName | src/utilities/__tests__/findDescriptionChanges-test.js:38-45 | In a schema with unique type names, looking a type up by its own name finds that very type. |
| Schema.FindTypeByName | src/utilities/__tests__/findDescriptionChanges-test.js:38-45 | With unique type names, every type carrying a name is the one the lookup by that name finds. |
| Schema.FindMember | src/utilities/__tests__/findDescriptionChanges-test.js:24-36 | Looking a field up by name returns a field of the type with that name, and returns nothing exactly when the type has no field of that name. |
| Schema.FindMemberOwnName | src/utilities/__tests__/findDescriptionChanges-test.js:115-124 | In a type with unique field names, looking a field up by its own name finds that very field. |
| Schema.FindMemberByName | src/utilities/__tests__/findDescriptionChanges-test.js:115-124 | With unique field names, every field carrying a name is the one the lookup by that name finds. |
| Messages.Decode | src/utilities/__tests__/findDescriptionChanges-test.js:46-47 | Whatever text the decoder accepts is exactly the rendering of the change it returns. |
| Messages.DecodeEncode | src/utilities/__tests__/findDescriptionChanges-test.js:77-78 | Every rendered sentence (added, changed, or new with description; TYPE or FIELD; any name) decodes back to its own verb, kind and name. |
| Messages.RecordInjective | src/utilities/__tests__/findDescriptionChanges-test.js:101-102 | Two changes are rendered as the same record if and only if they are the same change, so a record's text identifies its verb, kind and name. |
| Messages.Encode | src/utilities/__tests__/findDescriptionChanges-test.js:46-47 | Renders a change as "Description added on", "Description changed on" or "New ... added with description", around `<KIND> <name>`. Its contract is stated by `DecodeEncode` and `RecordInjective`: every sentence decodes back to its change, and distinct changes give distinct sentences. |
| Messages.Record | src/utilities/__tests__/findDescriptionChanges-test.js:77-78 | A record's only field is the rendered sentence, so a record identifies its change (`RecordInjective`). |
| DescriptionDiffer.TypeVerdictByName | src/utilities/__tests__/findDescriptionChanges-test.js:38-45 | When no old type has the new type's name, the verdict is the rule's judgement of an unmatched entity. When type names are unique, it judges against the description of any old type of that name. |
| DescriptionDiffer.MemberVerdictByName | src/utilities/__tests__/findDescriptionChanges-test.js:115-124 | When the old type has no field of the new field's name, the verdict is the rule's judgement of an unmatched entity. When field names are unique, it judges against the description of any old field of that name. |
| DescriptionDiffer.Judge | src/utilities/__tests__/findDescriptionChanges-test.js:23-106 | The three-way rule. The verdict is "new with description" if and only if the entity is unmatched and described now. It is "added" if and only if the entity is matched, was undescribed and is described now. It is "changed" if and only if the entity is matched and both descriptions are present but different. Equal descriptions on a matched entity give no verdict, and an entity with no description now gives none. |
| DescriptionDiffer.FindDescriptionChanges | src/utilities/__tests__/findDescriptionChanges-test.js:46-48 | The number of records equals the number of positions of the new schema holding an entity with a verdict. An entity is a type, or a field of a matched type. So no type or field gets more than one record. Records are not deduplicated: two fields with the same name in different types give two identical records. |
| DescriptionDiffer.TypeChanges | src/utilities/__tests__/findDescriptionChanges-test.js:38-48 | The pass over the new schema's types, in order, emits at most one record per type or field. `TypeChangesCount` gives the exact number. |
| DescriptionDiffer.TypeChangesCount | src/utilities/__tests__/findDescriptionChanges-test.js:38-48 | Over any sequence of types, the type pass emits exactly as many records as there are positions `(type, -1)` or `(type, field)` whose entity has a verdict. Fields count only under a matched type. |
| DescriptionDiffer.TypeBlock | src/utilities/__tests__/findDescriptionChanges-test.js:108-136 | A type's block holds at most one record for the type and one per field. `OwnRecordFirst` states that the type's own record comes first. |
| DescriptionDiffer.MemberChanges | src/utilities/__tests__/findDescriptionChanges-test.js:108-136 | The field pass emits at most one record per field of the new type. |
| DescriptionDiffer.MemberChangesCount | src/utilities/__tests__/findDescriptionChanges-test.js:108-136 | The field pass emits exactly as many records as there are field positions whose field has a verdict against the old type. |
| DescriptionDiffer.ReportedExactly | src/utilities/__tests__/findDescriptionChanges-test.js:23-139 | A change's record is in the output if and only if one of two things holds. Either the new schema has a type of that name with that verdict against the old schema. Or a matched type of the new schema has a field of that name with that verdict against the old type's fields. |
| DescriptionDiffer.MemberChangesHold | src/utilities/__tests__/findDescriptionChanges-test.js:108-136 | A record is in a matched type's field records if and only if it is a FIELD change of some field of the new type with that verdict. |
| DescriptionDiffer.OnlyRenderedChanges | src/utilities/__tests__/findDescriptionChanges-test.js:24-36 | Every record emitted is one of the three description sentences. Nothing else (field types, structure) is ever reported. |
| DescriptionDiffer.EmptyIffQuiet | src/utilities/__tests__/findDescriptionChanges-test.js:49-50 | The output is empty if and only if no type of the new schema, and no field of a matched type, has a verdict. |
| DescriptionDiffer.SelfComparisonEmpty | src/utilities/__tests__/findDescriptionChanges-test.js:137-138 | Comparing any well-formed schema with itself yields the empty list. |
| DescriptionDiffer.UnchangedTypesSilent | src/utilities/__tests__/findDescriptionChanges-test.js:16-21 | Types copied unchanged from a well-formed old schema emit no records, wherever they appear in the new schema. |
| DescriptionDiffer.OneTypeDescriptionChanged | src/utilities/__tests__/findDescriptionChanges-test.js:23-82 | In any well-formed schema, replacing one type by a type with the same name and fields but another description yields exactly that type's record, once. The record is "added" or "changed" as the three-way rule says, and there is none when the rule gives no verdict. |
| DescriptionDiffer.NewTypeAppended | src/utilities/__tests__/findDescriptionChanges-test.js:84-106 | In any well-formed schema, adding a type with a new name yields exactly one "new with description" record for it when it is described, and nothing otherwise. Its fields are never reported. |
| DescriptionDiffer.NewMemberAppended | src/utilities/__tests__/findDescriptionChanges-test.js:108-136 | In any well-formed schema, adding a field with a new name to one type, changing nothing else, yields exactly one "new with description" record for that field when it is described, and nothing otherwise. |
| DescriptionDiffer.SameMembersSilent | src/utilities/__tests__/findDescriptionChanges-test.js:109-119 | Fields that are the same on both sides emit no records. |
| DescriptionDiffer.TypeChangesAppend | src/utilities/__tests__/findDescriptionChanges-test.js:38-45 | The output follows the new schema's type order. The records for a concatenation of types are the records of each part, in order. |
| DescriptionDiffer.FirstRecordIsType | src/utilities/__tests__/findDescriptionChanges-test.js:16-48 | If the types before a type emit nothing and the type has a verdict, then the first record of the output is that type's record. So the unchanged shared `Query` type never displaces it. |
| DescriptionDiffer.FirstRecordIsMember | src/utilities/__tests__/findDescriptionChanges-test.js:108-136 | Suppose earlier types are quiet, the matched type's own description has no verdict, and the fields before a field emit nothing. If that field has a verdict, then the first record of the output is that field's record. So the unchanged `field1` never displaces `field2`. |
| DescriptionDiffer.OwnRecordFirst | src/utilities/__tests__/findDescriptionChanges-test.js:46-48 | When a type has a verdict, its own record opens its block of records, and every later record in the block is about a FIELD. |
| Scenarios.SharedTypesSilent | src/utilities/__tests__/findDescriptionChanges-test.js:16-21 | The shared query root, together with the built-in scalar it references, emits no records whatever type follows them. |
| Scenarios.DescriptionAddedOnType | src/utilities/__tests__/findDescriptionChanges-test.js:23-51 | Giving `Type` the description "Something rather" yields exactly `[Description added on TYPE Type.]`, so the first record has that text. Both schemas compared with themselves yield `[]`. |
| Scenarios.DescriptionChangedOnType | src/utilities/__tests__/findDescriptionChanges-test.js:53-82 | Changing `Type`'s description from "Something rather" to "Something else" yields exactly `[Description changed on TYPE Type.]`. Both self-comparisons yield `[]`. |
| Scenarios.NewTypeWithDescription | src/utilities/__tests__/findDescriptionChanges-test.js:84-106 | Adding a described `Type` to a schema without one yields exactly `[New TYPE Type added with description.]`. Its fields are not reported. Both self-comparisons yield `[]`. |
| Scenarios.NewFieldWithDescription | src/utilities/__tests__/findDescriptionChanges-test.js:108-139 | Adding a described `field2` to `Type` yields exactly `[New FIELD field2 added with description.]`, with the field's own name unqualified. Both self-comparisons yield `[]`. |

## Left out

- Schema construction is left out. That covers `GraphQLSchema`, `GraphQLObjectType`, building
  the type map, field types such as `GraphQLString`, and the introspection types. A schema is
  a sequence of named types in type-map order. The test schemas hold the query root `Query`
  and one stand-in for the built-in `String` scalar ahead of the type under test. The
  stand-in has a placeholder description, which is identical on both sides. The other types
  the real type map contains are not modelled.
- DescriptionDiffer.TypeBlock: the fields of a type that is new (unmatched by name) are not
  examined, so they are never reported. This is a chosen policy, not a claim about the
  source, because no test decides it: the one test that adds a type gives its only field
  no description.
- A description removed from a matched entity (described before, absent or empty now) yields
  no record. This is a chosen policy, not a claim about the source, because no test exercises
  that case.
- Kinds other than object types and their fields are left out, such as enum values,
  arguments and input fields. The tests only exercise `TYPE` and `FIELD`.
- Structural differences are not compared: removed types or fields, and changed field types.
  The differ compares descriptions only.
- Lookup by name uses a first-match linear search instead of a hash map keyed by name. Under
  the unique-names guarantee the two agree (`FindTypeOwnName`, `FindMemberOwnName`).
- The mocha/chai harness (`describe`, `it`, `expect`) is left out.
