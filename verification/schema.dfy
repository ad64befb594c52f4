/**
  The schema snapshots the description differ compares: an ordered sequence of
  named types, each with an optional description and an ordered sequence of
  named members (fields). Only names and descriptions are modelled; field
  types and every other structural part of a schema play no role in the
  comparison.
 */
module Schema {

  /** An optional value: a description that may be missing, or the result of a
      lookup by name that may find nothing. */
  datatype Option<+T> = None | Some(value: T)

  /** A member of a named type (a field), identified by its name within the type. */
  datatype Member = Member(name: string, desc: Option<string>)

  /** A named type of a schema, with its members in declaration order. */
  datatype NamedType = NamedType(name: string, desc: Option<string>, members: seq<Member>)

  /** A schema snapshot: its type map, in iteration order. */
  type Schema = seq<NamedType>

  /** A description counts only when it is present and not the empty string
      (an absent and an empty description are both falsy in the source). */
  predicate Described(d: Option<string>)
  {
    d.Some? && d.value != ""
  }

  /** Member names are unique within a type. */
  predicate UniqueMemberNames(ms: seq<Member>)
  {
    forall i, j :: 0 <= i < j < |ms| ==> ms[i].name != ms[j].name
  }

  /** Type names are unique within a schema. */
  predicate UniqueTypeNames(s: Schema)
  {
    forall i, j :: 0 <= i < j < |s| ==> s[i].name != s[j].name
  }

  /** What the schema-construction collaborator guarantees: names are unique
      at every level. */
  predicate WellFormed(s: Schema)
  {
    && UniqueTypeNames(s)
    && forall t :: t in s ==> UniqueMemberNames(t.members)
  }

  // Members and types are looked up by name with the same first-match search.
  // The two are kept as separate functions over their own element types, so
  // that each contract speaks directly of `.name` without a name projection
  // passed as a function value.

  /** The member of `ms` called `name`, if any (the first one, should there be several). */
  function FindMember(ms: seq<Member>, name: string): (r: Option<Member>)
    ensures r.Some? ==> r.value in ms && r.value.name == name
    ensures r.None? <==> forall m :: m in ms ==> m.name != name
  {
    if ms == [] then None
    else if ms[0].name == name then Some(ms[0])
    else FindMember(ms[1..], name)
  }

  /** The type of `s` called `name`, if any (the first one, should there be several). */
  function FindType(s: Schema, name: string): (r: Option<NamedType>)
    ensures r.Some? ==> r.value in s && r.value.name == name
    ensures r.None? <==> forall t :: t in s ==> t.name != name
  {
    if s == [] then None
    else if s[0].name == name then Some(s[0])
    else FindType(s[1..], name)
  }

  /** With unique names, looking a member up by its own name finds that very member. */
  lemma FindMemberOwnName(ms: seq<Member>, m: Member)
    requires UniqueMemberNames(ms)
    requires m in ms
    ensures FindMember(ms, m.name) == Some(m)
  {
  }

  /** With unique names, looking a type up by its own name finds that very type. */
  lemma FindTypeOwnName(s: Schema, t: NamedType)
    requires UniqueTypeNames(s)
    requires t in s
    ensures FindType(s, t.name) == Some(t)
  {
  }

  /** With unique names, every member called `name` is the one the lookup finds. */
  lemma FindMemberByName(ms: seq<Member>, name: string)
    ensures UniqueMemberNames(ms) ==>
              forall m :: m in ms && m.name == name ==> FindMember(ms, name) == Some(m)
  {
    if UniqueMemberNames(ms) {
      forall m | m in ms && m.name == name
        ensures FindMember(ms, name) == Some(m)
      {
        FindMemberOwnName(ms, m);
      }
    }
  }

  /** With unique names, every type called `name` is the one the lookup finds. */
  lemma FindTypeByName(s: Schema, name: string)
    ensures UniqueTypeNames(s) ==>
              forall t :: t in s && t.name == name ==> FindType(s, name) == Some(t)
  {
    if UniqueTypeNames(s) {
      forall t | t in s && t.name == name
        ensures FindType(s, name) == Some(t)
      {
        FindTypeOwnName(s, t);
      }
    }
  }
}
