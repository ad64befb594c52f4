/**
  findDescriptionChanges(oldSchema, newSchema): walks the types of the new
  schema in order, matches each by name against the old schema, and emits a
  record when a description was added, changed, or arrived with a new type;
  for a matched type it then does the same for the type's members, matched
  by name against the old type's members. A type's own record comes before
  its members' records.
 */
module DescriptionDiffer {
  import opened Schema
  import opened Messages

  /** The three-way comparison of one entity's descriptions. `matched` says
      whether an entity of the same name exists on the old side, and
      `oldDesc` is its description. A description that disappears yields no
      record. */
  function Judge(matched: bool, oldDesc: Option<string>, newDesc: Option<string>): (r: Option<Verb>)
    ensures r == Some(Introduced) <==> !matched && Described(newDesc)
    ensures r == Some(Added) <==> matched && !Described(oldDesc) && Described(newDesc)
    ensures r == Some(Changed) <==>
              matched && Described(oldDesc) && Described(newDesc) && oldDesc.value != newDesc.value
    ensures r.Some? ==> Described(newDesc)
    ensures matched && oldDesc == newDesc ==> r.None?
  {
    if !Described(newDesc) then None
    else if !matched then Some(Introduced)
    else if !Described(oldDesc) then Some(Added)
    else if oldDesc.value != newDesc.value then Some(Changed)
    else None
  }

  /** The verdict on a type of the new schema. */
  function TypeVerdict(oldSchema: Schema, t: NamedType): Option<Verb>
  {
    match FindType(oldSchema, t.name)
    case None => Judge(false, None, t.desc)
    case Some(o) => Judge(true, o.desc, t.desc)
  }

  /** The verdict on a member of a new type whose old counterpart is `oldType`. */
  function MemberVerdict(oldType: NamedType, m: Member): Option<Verb>
  {
    match FindMember(oldType.members, m.name)
    case None => Judge(false, None, m.desc)
    case Some(o) => Judge(true, o.desc, m.desc)
  }

  /** A type is judged as unmatched when no old type has its name, and, when
      old type names are unique, against the old type of its name. */
  lemma TypeVerdictByName(oldSchema: Schema, t: NamedType)
    ensures (forall o :: o in oldSchema ==> o.name != t.name) ==>
              TypeVerdict(oldSchema, t) == Judge(false, None, t.desc)
    ensures UniqueTypeNames(oldSchema) ==>
              forall o :: o in oldSchema && o.name == t.name ==> TypeVerdict(oldSchema, t) == Judge(true, o.desc, t.desc)
  {
    FindTypeByName(oldSchema, t.name);
  }

  /** A member is judged as unmatched when the old type has no member of its
      name, and, when the old member names are unique, against the old member
      of its name. */
  lemma MemberVerdictByName(oldType: NamedType, m: Member)
    ensures (forall o :: o in oldType.members ==> o.name != m.name) ==>
              MemberVerdict(oldType, m) == Judge(false, None, m.desc)
    ensures UniqueMemberNames(oldType.members) ==>
              forall o :: o in oldType.members && o.name == m.name ==> MemberVerdict(oldType, m) == Judge(true, o.desc, m.desc)
  {
    FindMemberByName(oldType.members, m.name);
  }

  /** Zero or one record for one entity. */
  function Emit(k: Kind, name: string, v: Option<Verb>): (r: seq<ChangeRecord>)
    ensures |r| <= 1
  {
    if v.Some? then [Record(Change(v.value, k, name))] else []
  }

  /** The member pass over the new type's members `ms`, in order. */
  function MemberChanges(oldType: NamedType, ms: seq<Member>): (r: seq<ChangeRecord>)
    ensures |r| <= |ms|
  {
    if ms == [] then []
    else Emit(Field, ms[0].name, MemberVerdict(oldType, ms[0])) + MemberChanges(oldType, ms[1..])
  }

  /** The records for one type of the new schema: its own record, then, when it
      is matched, its members' records. An unmatched type's members are not
      examined. */
  function TypeBlock(oldSchema: Schema, t: NamedType): (r: seq<ChangeRecord>)
    ensures |r| <= 1 + |t.members|
  {
    var own := Emit(Type, t.name, TypeVerdict(oldSchema, t));
    match FindType(oldSchema, t.name)
    case None => own
    case Some(o) => own + MemberChanges(o, t.members)
  }

  /** The number of entities (types and their members) in a schema. */
  function EntityCount(s: Schema): nat
  {
    if s == [] then 0 else 1 + |s[0].members| + EntityCount(s[1..])
  }

  /** The type pass over the new schema's types `ts`, in order. */
  function TypeChanges(oldSchema: Schema, ts: seq<NamedType>): (r: seq<ChangeRecord>)
    ensures |r| <= EntityCount(ts)
  {
    if ts == [] then []
    else TypeBlock(oldSchema, ts[0]) + TypeChanges(oldSchema, ts[1..])
  }

  /** The differ: exactly one record per entity of the new schema that has a
      verdict, so never more than one per entity. */
  function FindDescriptionChanges(oldSchema: Schema, newSchema: Schema): (r: seq<ChangeRecord>)
    ensures |r| <= EntityCount(newSchema)
    ensures |r| == VerdictCount(oldSchema, newSchema)
  {
    TypeChangesCount(oldSchema, newSchema);
    TypeChanges(oldSchema, newSchema)
  }

  // ---------------------------------------------------------------------------
  // Counting: one record per entity that has a verdict.
  // ---------------------------------------------------------------------------

  /** The positions in `ms` of the members that have a verdict against `oldType`. */
  ghost function MemberVerdictPositions(oldType: NamedType, ms: seq<Member>): set<int>
  {
    set j | 0 <= j < |ms| && MemberVerdict(oldType, ms[j]).Some?
  }

  /** Whether entity `j` of the new type `t` has a verdict: `j == -1` stands for
      the type itself and `0 <= j` for its `j`-th member, which is judged only
      when the type is matched. */
  ghost predicate EntitySpeaks(oldSchema: Schema, t: NamedType, j: int)
  {
    if j == -1 then TypeVerdict(oldSchema, t).Some?
    else
      && 0 <= j < |t.members|
      && FindType(oldSchema, t.name).Some?
      && MemberVerdict(FindType(oldSchema, t.name).value, t.members[j]).Some?
  }

  /** The positions `(i, j)` of the entities of `ts` that have a verdict. */
  ghost function VerdictPositions(oldSchema: Schema, ts: seq<NamedType>): set<(int, int)>
  {
    set i, j | 0 <= i < |ts| && -1 <= j < |ts[i].members| && EntitySpeaks(oldSchema, ts[i], j) :: (i, j)
  }

  /** How many entities of `ts` (types, and members of matched types) have a verdict. */
  ghost function VerdictCount(oldSchema: Schema, ts: seq<NamedType>): nat
  {
    |VerdictPositions(oldSchema, ts)|
  }

  /** The positions of `rest + [last]` are those of `rest`, and `last`'s when it has a verdict. */
  lemma MemberPositionsSnoc(oldType: NamedType, rest: seq<Member>, last: Member)
    ensures MemberVerdictPositions(oldType, rest + [last])
            == MemberVerdictPositions(oldType, rest)
               + (if MemberVerdict(oldType, last).Some? then {|rest|} else {})
  {
    var ms := rest + [last];
    assert forall j :: 0 <= j < |rest| ==> ms[j] == rest[j];
    assert ms[|rest|] == last;
  }

  /** The member pass emits one record per member that has a verdict. */
  lemma {:induction false} MemberChangesCount(oldType: NamedType, ms: seq<Member>)
    ensures |MemberChanges(oldType, ms)| == |MemberVerdictPositions(oldType, ms)|
    decreases |ms|
  {
    if ms != [] {
      var n := |ms| - 1;
      var rest, last := ms[..n], ms[n];
      assert rest + [last] == ms;
      MemberChangesCount(oldType, rest);
      MemberChangesAppend(oldType, rest, [last]);
      assert MemberChanges(oldType, [last]) == Emit(Field, last.name, MemberVerdict(oldType, last)) by {
        assert [last][1..] == [];
      }
      MemberPositionsSnoc(oldType, rest, last);
      assert n !in MemberVerdictPositions(oldType, rest);
    }
  }

  /** Pairing the elements of a set below `hi` with a fixed first component
      keeps their number. */
  lemma {:induction false} PairedSize(k: int, js: set<int>, lo: int, hi: int)
    requires forall j :: j in js ==> lo <= j
    requires lo <= hi
    ensures |(set j | j in js && j < hi :: (k, j))| == |(set j | j in js && j < hi)|
    decreases hi - lo
  {
    if lo < hi {
      PairedSize(k, js, lo, hi - 1);
      var last := hi - 1;
      if last in js {
        assert (set j | j in js && j < hi) == (set j | j in js && j < last) + {last};
        assert (set j | j in js && j < hi :: (k, j)) == (set j | j in js && j < last :: (k, j)) + {(k, last)};
      } else {
        assert (set j | j in js && j < hi) == (set j | j in js && j < last);
        assert (set j | j in js && j < hi :: (k, j)) == (set j | j in js && j < last :: (k, j));
      }
    } else {
      assert (set j | j in js && j < hi) == {};
      assert (set j | j in js && j < hi :: (k, j)) == {};
    }
  }

  /** The positions of one type's entities, placed at index `k`. */
  ghost function BlockPositions(oldSchema: Schema, k: int, t: NamedType): set<(int, int)>
  {
    set j | -1 <= j < |t.members| && EntitySpeaks(oldSchema, t, j) :: (k, j)
  }

  /** The position of the type itself, when it has a verdict. */
  ghost function OwnPosition(oldSchema: Schema, k: int, t: NamedType): set<(int, int)>
  {
    if TypeVerdict(oldSchema, t).Some? then {(k, -1)} else {}
  }

  /** An unmatched type's only possible position is its own. */
  lemma UnmatchedBlock(oldSchema: Schema, k: int, t: NamedType)
    requires FindType(oldSchema, t.name).None?
    ensures BlockPositions(oldSchema, k, t) == OwnPosition(oldSchema, k, t)
  {
  }

  /** A matched type's positions are its own and those of its members that
      have a verdict against the old type. */
  lemma MatchedBlock(oldSchema: Schema, k: int, t: NamedType, o: NamedType)
    requires FindType(oldSchema, t.name) == Some(o)
    ensures BlockPositions(oldSchema, k, t)
            == OwnPosition(oldSchema, k, t)
               + (set j | j in MemberVerdictPositions(o, t.members) && j < |t.members| :: (k, j))
  {
  }

  /** A type's block has one record per entity of the type that has a verdict. */
  lemma BlockCount(oldSchema: Schema, k: int, t: NamedType)
    ensures |TypeBlock(oldSchema, t)| == |BlockPositions(oldSchema, k, t)|
  {
    var own := Emit(Type, t.name, TypeVerdict(oldSchema, t));
    assert |own| == |OwnPosition(oldSchema, k, t)|;
    match FindType(oldSchema, t.name)
    case None =>
      UnmatchedBlock(oldSchema, k, t);
    case Some(o) =>
      var js := MemberVerdictPositions(o, t.members);
      var paired := set j | j in js && j < |t.members| :: (k, j);
      MatchedBlock(oldSchema, k, t, o);
      MemberChangesCount(o, t.members);
      PairedSize(k, js, 0, |t.members|);
      assert js == (set j | j in js && j < |t.members|);
      assert (k, -1) !in paired;
      assert |TypeBlock(oldSchema, t)| == |own| + |MemberChanges(o, t.members)|;
  }

  /** The positions of `rest + [last]` are those of `rest` and those of `last`'s block. */
  lemma PositionsSnoc(oldSchema: Schema, rest: seq<NamedType>, last: NamedType)
    ensures VerdictPositions(oldSchema, rest + [last])
            == VerdictPositions(oldSchema, rest) + BlockPositions(oldSchema, |rest|, last)
    ensures VerdictPositions(oldSchema, rest) !! BlockPositions(oldSchema, |rest|, last)
  {
    var ts := rest + [last];
    assert forall i :: 0 <= i < |rest| ==> ts[i] == rest[i];
    assert ts[|rest|] == last;
  }

  /** The type pass emits one record per entity of `ts` that has a verdict. */
  lemma {:induction false} TypeChangesCount(oldSchema: Schema, ts: seq<NamedType>)
    ensures |TypeChanges(oldSchema, ts)| == VerdictCount(oldSchema, ts)
    decreases |ts|
  {
    if ts != [] {
      var n := |ts| - 1;
      var rest, last := ts[..n], ts[n];
      assert rest + [last] == ts;
      TypeChangesCount(oldSchema, rest);
      TypeChangesAppend(oldSchema, rest, [last]);
      assert [last][1..] == [];
      BlockCount(oldSchema, n, last);
      PositionsSnoc(oldSchema, rest, last);
    }
  }

  // ---------------------------------------------------------------------------
  // Reference definitions: which changes are reported, and when nothing is.
  // ---------------------------------------------------------------------------

  /** The change `c` is one the comparison of the two schemas should report:
      a type of the new schema with that verdict, or a member of a matched
      type of the new schema with that verdict. */
  ghost predicate Reported(oldSchema: Schema, newSchema: Schema, c: Change)
  {
    match c.kind
    case Type =>
      exists t :: t in newSchema && t.name == c.name && TypeVerdict(oldSchema, t) == Some(c.verb)
    case Field =>
      exists t, m :: t in newSchema && m in t.members && m.name == c.name
                     && FindType(oldSchema, t.name).Some?
                     && MemberVerdict(FindType(oldSchema, t.name).value, m) == Some(c.verb)
  }

  /** No entity of the new schema has a verdict. */
  ghost predicate Quiet(oldSchema: Schema, newSchema: Schema)
  {
    forall t :: t in newSchema ==> TypeQuiet(oldSchema, t)
  }

  /** Neither the type nor, when it is matched, any of its members has a verdict. */
  ghost predicate TypeQuiet(oldSchema: Schema, t: NamedType)
  {
    && TypeVerdict(oldSchema, t).None?
    && (FindType(oldSchema, t.name).Some? ==>
          forall m :: m in t.members ==> MemberVerdict(FindType(oldSchema, t.name).value, m).None?)
  }

  lemma EmitHolds(k: Kind, name: string, v: Option<Verb>, c: Change)
    ensures Record(c) in Emit(k, name, v) <==> c == Change(c.verb, k, name) && v == Some(c.verb)
  {
    if v.Some? {
      RecordInjective(c, Change(v.value, k, name));
    }
  }

  /** A member record is in the member pass exactly when some member has that verdict. */
  lemma {:induction false} MemberChangesHold(oldType: NamedType, ms: seq<Member>, c: Change)
    ensures Record(c) in MemberChanges(oldType, ms) <==>
              c.kind == Field && exists m :: m in ms && m.name == c.name && MemberVerdict(oldType, m) == Some(c.verb)
  {
    if ms != [] {
      MemberChangesHold(oldType, ms[1..], c);
      EmitHolds(Field, ms[0].name, MemberVerdict(oldType, ms[0]), c);
      if c.kind == Field && exists m :: m in ms && m.name == c.name && MemberVerdict(oldType, m) == Some(c.verb) {
        var m :| m in ms && m.name == c.name && MemberVerdict(oldType, m) == Some(c.verb);
        if m != ms[0] {
          assert m in ms[1..];
        }
      }
    }
  }

  /** Soundness and completeness of the type pass against `Reported`. */
  lemma {:induction false} TypeChangesHold(oldSchema: Schema, ts: seq<NamedType>, c: Change)
    ensures Record(c) in TypeChanges(oldSchema, ts) <==> Reported(oldSchema, ts, c)
  {
    if ts != [] {
      var t := ts[0];
      TypeChangesHold(oldSchema, ts[1..], c);
      EmitHolds(Type, t.name, TypeVerdict(oldSchema, t), c);
      var o := FindType(oldSchema, t.name);
      if o.Some? {
        MemberChangesHold(o.value, t.members, c);
      }
      if Reported(oldSchema, ts, c) {
        match c.kind
        case Type =>
          var u :| u in ts && u.name == c.name && TypeVerdict(oldSchema, u) == Some(c.verb);
          if u != t {
            assert u in ts[1..];
          }
        case Field =>
          var u, m :| u in ts && m in u.members && m.name == c.name
                      && FindType(oldSchema, u.name).Some?
                      && MemberVerdict(FindType(oldSchema, u.name).value, m) == Some(c.verb);
          if u != t {
            assert u in ts[1..];
          }
      }
      if Reported(oldSchema, ts[1..], c) {
        match c.kind
        case Type =>
          var u :| u in ts[1..] && u.name == c.name && TypeVerdict(oldSchema, u) == Some(c.verb);
          assert u in ts;
        case Field =>
          var u, m :| u in ts[1..] && m in u.members && m.name == c.name
                      && FindType(oldSchema, u.name).Some?
                      && MemberVerdict(FindType(oldSchema, u.name).value, m) == Some(c.verb);
          assert u in ts;
      }
    }
  }

  /** A change's record is emitted if and only if the change is one to report. */
  lemma ReportedExactly(oldSchema: Schema, newSchema: Schema, c: Change)
    ensures Record(c) in FindDescriptionChanges(oldSchema, newSchema) <==> Reported(oldSchema, newSchema, c)
  {
    TypeChangesHold(oldSchema, newSchema, c);
  }

  /** Every emitted record renders some change (one of the three sentences). */
  lemma {:induction false} OnlyRenderedChanges(oldSchema: Schema, ts: seq<NamedType>)
    ensures forall rec :: rec in TypeChanges(oldSchema, ts) ==> Decode(rec.description).Some?
  {
    if ts != [] {
      OnlyRenderedChanges(oldSchema, ts[1..]);
      var t := ts[0];
      forall rec | rec in TypeBlock(oldSchema, t)
        ensures Decode(rec.description).Some?
      {
        var v := TypeVerdict(oldSchema, t);
        if v.Some? && rec == Record(Change(v.value, Type, t.name)) {
          DecodeEncode(Change(v.value, Type, t.name));
        } else {
          var o := FindType(oldSchema, t.name);
          assert o.Some? && rec in MemberChanges(o.value, t.members);
          MemberRecordsRendered(o.value, t.members, rec);
        }
      }
    }
  }

  lemma {:induction false} MemberRecordsRendered(oldType: NamedType, ms: seq<Member>, rec: ChangeRecord)
    requires rec in MemberChanges(oldType, ms)
    ensures exists m :: m in ms && MemberVerdict(oldType, m).Some?
                        && rec == Record(Change(MemberVerdict(oldType, m).value, Field, m.name))
    ensures Decode(rec.description).Some?
  {
    var v := MemberVerdict(oldType, ms[0]);
    if v.Some? && rec == Record(Change(v.value, Field, ms[0].name)) {
      DecodeEncode(Change(v.value, Field, ms[0].name));
    } else {
      MemberRecordsRendered(oldType, ms[1..], rec);
      var m :| m in ms[1..] && MemberVerdict(oldType, m).Some?
               && rec == Record(Change(MemberVerdict(oldType, m).value, Field, m.name));
      assert m in ms;
    }
  }

  // ---------------------------------------------------------------------------
  // Emptiness: self-comparison, and exactly when nothing is reported.
  // ---------------------------------------------------------------------------

  lemma {:induction false} MemberChangesEmpty(oldType: NamedType, ms: seq<Member>)
    ensures MemberChanges(oldType, ms) == [] <==>
              forall m :: m in ms ==> MemberVerdict(oldType, m).None?
  {
    if ms != [] {
      MemberChangesEmpty(oldType, ms[1..]);
      assert forall m :: m in ms[1..] ==> m in ms;
      assert forall m :: m in ms ==> m == ms[0] || m in ms[1..];
    }
  }

  /** Members that are the same on both sides (names unique) emit nothing. */
  lemma SameMembersSilent(oldType: NamedType, ms: seq<Member>)
    requires UniqueMemberNames(ms)
    requires oldType.members == ms
    ensures MemberChanges(oldType, ms) == []
  {
    forall m | m in ms
      ensures MemberVerdict(oldType, m).None?
    {
      FindMemberOwnName(ms, m);
    }
    MemberChangesEmpty(oldType, ms);
  }

  /** The differ reports nothing exactly when no entity has a verdict. */
  lemma {:induction false} EmptyIffQuiet(oldSchema: Schema, ts: seq<NamedType>)
    ensures TypeChanges(oldSchema, ts) == [] <==> Quiet(oldSchema, ts)
  {
    if ts != [] {
      EmptyIffQuiet(oldSchema, ts[1..]);
      TypeBlockEmpty(oldSchema, ts[0]);
      assert forall u :: u in ts[1..] ==> u in ts;
      assert forall u :: u in ts ==> u == ts[0] || u in ts[1..];
    }
  }

  lemma TypeBlockEmpty(oldSchema: Schema, t: NamedType)
    ensures TypeBlock(oldSchema, t) == [] <==> TypeQuiet(oldSchema, t)
  {
    var o := FindType(oldSchema, t.name);
    if o.Some? {
      MemberChangesEmpty(o.value, t.members);
    }
  }

  /** Types taken unchanged from a well-formed old schema report nothing. */
  lemma UnchangedTypesSilent(s: Schema, ts: seq<NamedType>)
    requires WellFormed(s)
    requires forall u :: u in ts ==> u in s
    ensures TypeChanges(s, ts) == []
  {
    forall t | t in ts
      ensures TypeQuiet(s, t)
    {
      FindTypeOwnName(s, t);
      forall m | m in t.members
        ensures MemberVerdict(t, m).None?
      {
        FindMemberOwnName(t.members, m);
      }
    }
    EmptyIffQuiet(s, ts);
  }

  /** Comparing any well-formed schema with itself reports nothing. */
  lemma SelfComparisonEmpty(s: Schema)
    requires WellFormed(s)
    ensures FindDescriptionChanges(s, s) == []
  {
    UnchangedTypesSilent(s, s);
  }

  // ---------------------------------------------------------------------------
  // A single difference yields exactly its own record, once.
  // ---------------------------------------------------------------------------

  /** The types of `s` other than the one at index `i` are unchanged in `s[i := t]`. */
  lemma SplitAt(s: Schema, i: nat, t: NamedType)
    requires i < |s|
    ensures s[i := t] == s[..i] + [t] + s[i + 1..]
    ensures forall u :: u in s[..i] ==> u in s
    ensures forall u :: u in s[i + 1..] ==> u in s
  {
    forall u | u in s[i + 1..]
      ensures u in s
    {
      var k :| 0 <= k < |s[i + 1..]| && s[i + 1..][k] == u;
      assert s[i + 1 + k] == u;
    }
  }

  /** Replacing one type of a well-formed schema by a type of the same name
      leaves the records of that type's block alone. */
  lemma OnlyReplacedTypeSpeaks(s: Schema, i: nat, t: NamedType)
    requires WellFormed(s)
    requires i < |s|
    ensures FindDescriptionChanges(s, s[i := t]) == TypeBlock(s, t)
  {
    SplitAt(s, i, t);
    UnchangedTypesSilent(s, s[..i]);
    UnchangedTypesSilent(s, s[i + 1..]);
    TypeChangesAround(s, s[..i], t, s[i + 1..]);
  }

  /** Changing only one type's description, in a well-formed schema, yields
      exactly that type's record (or none), whatever the other types are. */
  lemma OneTypeDescriptionChanged(s: Schema, i: nat, t: NamedType)
    requires WellFormed(s)
    requires i < |s|
    requires t.name == s[i].name && t.members == s[i].members
    ensures FindDescriptionChanges(s, s[i := t]) == Emit(Type, t.name, Judge(true, s[i].desc, t.desc))
  {
    OnlyReplacedTypeSpeaks(s, i, t);
    FindTypeOwnName(s, s[i]);
    SameMembersSilent(s[i], t.members);
  }

  /** Adding, at the end, a type whose name is new yields exactly its
      "new with description" record when it is described, and nothing
      otherwise; its members are not reported. */
  lemma NewTypeAppended(s: Schema, t: NamedType)
    requires WellFormed(s)
    requires forall u :: u in s ==> u.name != t.name
    ensures FindDescriptionChanges(s, s + [t]) == Emit(Type, t.name, Judge(false, None, t.desc))
  {
    UnchangedTypesSilent(s, s);
    TypeChangesAppend(s, s, [t]);
  }

  /** The block of a matched type that only gained member `m` at the end. */
  lemma AppendedMemberBlock(s: Schema, o: NamedType, t: NamedType, m: Member)
    requires FindType(s, t.name) == Some(o)
    requires UniqueMemberNames(o.members)
    requires t.desc == o.desc && t.members == o.members + [m]
    requires forall x :: x in o.members ==> x.name != m.name
    ensures TypeBlock(s, t) == Emit(Field, m.name, Judge(false, None, m.desc))
  {
    SameMembersSilent(o, o.members);
    MemberChangesAround(o, o.members, m, []);
    assert o.members + [m] + [] == t.members;
  }

  /** Adding, at the end of one type's members, a member whose name is new
      yields exactly that member's record (or none), named by the member alone. */
  lemma NewMemberAppended(s: Schema, i: nat, t: NamedType, m: Member)
    requires WellFormed(s)
    requires i < |s|
    requires t.name == s[i].name && t.desc == s[i].desc && t.members == s[i].members + [m]
    requires forall x :: x in s[i].members ==> x.name != m.name
    ensures FindDescriptionChanges(s, s[i := t]) == Emit(Field, m.name, Judge(false, None, m.desc))
  {
    OnlyReplacedTypeSpeaks(s, i, t);
    FindTypeOwnName(s, s[i]);
    AppendedMemberBlock(s, s[i], t, m);
  }

  // ---------------------------------------------------------------------------
  // Ordering: records follow the new schema's type order and member order.
  // ---------------------------------------------------------------------------

  lemma {:induction false} TypeChangesAppend(oldSchema: Schema, a: seq<NamedType>, b: seq<NamedType>)
    ensures TypeChanges(oldSchema, a + b) == TypeChanges(oldSchema, a) + TypeChanges(oldSchema, b)
  {
    if a != [] {
      assert (a + b)[1..] == a[1..] + b;
      TypeChangesAppend(oldSchema, a[1..], b);
    } else {
      assert a + b == b;
    }
  }

  lemma {:induction false} MemberChangesAppend(oldType: NamedType, a: seq<Member>, b: seq<Member>)
    ensures MemberChanges(oldType, a + b) == MemberChanges(oldType, a) + MemberChanges(oldType, b)
  {
    if a != [] {
      assert (a + b)[1..] == a[1..] + b;
      MemberChangesAppend(oldType, a[1..], b);
    } else {
      assert a + b == b;
    }
  }

  /** The type pass splits around any one type of the new schema. */
  lemma TypeChangesAround(oldSchema: Schema, before: seq<NamedType>, t: NamedType, after: seq<NamedType>)
    ensures TypeChanges(oldSchema, before + [t] + after)
            == TypeChanges(oldSchema, before) + TypeBlock(oldSchema, t) + TypeChanges(oldSchema, after)
  {
    TypeChangesAppend(oldSchema, before, [t] + after);
    assert before + [t] + after == before + ([t] + after);
    assert ([t] + after)[1..] == after;
  }

  /** The member pass splits around any one member of the new type. */
  lemma MemberChangesAround(oldType: NamedType, before: seq<Member>, m: Member, after: seq<Member>)
    ensures MemberChanges(oldType, before + [m] + after)
            == MemberChanges(oldType, before) + Emit(Field, m.name, MemberVerdict(oldType, m))
               + MemberChanges(oldType, after)
  {
    var rest := [m] + after;
    assert before + [m] + after == before + rest;
    assert rest[0] == m && rest[1..] == after;
    assert MemberChanges(oldType, rest)
           == Emit(Field, m.name, MemberVerdict(oldType, m)) + MemberChanges(oldType, after);
    MemberChangesAppend(oldType, before, rest);
  }

  /** Types that report nothing never displace a later type's record from the
      head of the list. */
  lemma FirstRecordIsType(oldSchema: Schema, before: seq<NamedType>, t: NamedType, after: seq<NamedType>)
    requires TypeChanges(oldSchema, before) == []
    requires TypeVerdict(oldSchema, t).Some?
    ensures |FindDescriptionChanges(oldSchema, before + [t] + after)| > 0
    ensures FindDescriptionChanges(oldSchema, before + [t] + after)[0]
            == Record(Change(TypeVerdict(oldSchema, t).value, Type, t.name))
  {
    TypeChangesAround(oldSchema, before, t, after);
  }

  /** Within a matched type whose own description did not change, members that
      report nothing never displace a later member's record, and neither do
      earlier quiet types. */
  lemma FirstRecordIsMember(oldSchema: Schema, before: seq<NamedType>, t: NamedType, after: seq<NamedType>,
                            mBefore: seq<Member>, m: Member, mAfter: seq<Member>)
    requires TypeChanges(oldSchema, before) == []
    requires FindType(oldSchema, t.name).Some?
    requires TypeVerdict(oldSchema, t).None?
    requires t.members == mBefore + [m] + mAfter
    requires MemberChanges(FindType(oldSchema, t.name).value, mBefore) == []
    requires MemberVerdict(FindType(oldSchema, t.name).value, m).Some?
    ensures |FindDescriptionChanges(oldSchema, before + [t] + after)| > 0
    ensures FindDescriptionChanges(oldSchema, before + [t] + after)[0]
            == Record(Change(MemberVerdict(FindType(oldSchema, t.name).value, m).value, Field, m.name))
  {
    var o := FindType(oldSchema, t.name).value;
    var rec := Record(Change(MemberVerdict(o, m).value, Field, m.name));
    MemberChangesAround(o, mBefore, m, mAfter);
    var ms := MemberChanges(o, t.members);
    assert ms[0] == rec;
    assert TypeBlock(oldSchema, t) == ms;
    TypeChangesAround(oldSchema, before, t, after);
  }

  /** A type's own record precedes the records of its members. */
  lemma OwnRecordFirst(oldSchema: Schema, t: NamedType)
    requires TypeVerdict(oldSchema, t).Some?
    ensures |TypeBlock(oldSchema, t)| > 0
    ensures TypeBlock(oldSchema, t)[0] == Record(Change(TypeVerdict(oldSchema, t).value, Type, t.name))
    ensures forall i :: 1 <= i < |TypeBlock(oldSchema, t)| ==>
              Decode(TypeBlock(oldSchema, t)[i].description).Some?
              && Decode(TypeBlock(oldSchema, t)[i].description).value.kind == Field
  {
    var b := TypeBlock(oldSchema, t);
    forall i | 1 <= i < |b|
      ensures Decode(b[i].description).Some? && Decode(b[i].description).value.kind == Field
    {
      var o := FindType(oldSchema, t.name).value;
      var ms := MemberChanges(o, t.members);
      assert b[i] == ms[i - 1];
      MemberRecordsRendered(o, t.members, b[i]);
      var m :| m in t.members && MemberVerdict(o, m).Some?
               && b[i] == Record(Change(MemberVerdict(o, m).value, Field, m.name));
      DecodeEncode(Change(MemberVerdict(o, m).value, Field, m.name));
    }
  }
}
