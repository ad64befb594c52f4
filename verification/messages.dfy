/**
  The change records the description differ emits, and the three sentence
  templates that render them. A record carries only its sentence; the
  decoder recovers the verb, kind and name from it, which shows that no two
  different changes are rendered as the same sentence.
 */
module Messages {
  import opened Schema

  /** The entity categories the differ reports on, each with a fixed upper-case label. */
  datatype Kind = Type | Field

  /** What happened to a description. */
  datatype Verb =
    | Added       // matched entity, no description before, one now
    | Changed     // matched entity, description text differs
    | Introduced  // entity new in the new schema, carrying a description

  /** A change before rendering. */
  datatype Change = Change(verb: Verb, kind: Kind, name: string)

  /** The differ's output element: one human-readable sentence. */
  datatype ChangeRecord = ChangeRecord(description: string)

  const AddedPrefix: string := "Description added on "
  const ChangedPrefix: string := "Description changed on "
  const NewPrefix: string := "New "
  const NewSuffix: string := " added with description."
  const Period: string := "."

  function Label(k: Kind): string
  {
    match k
    case Type => "TYPE"
    case Field => "FIELD"
  }

  /** "<KIND> <name>", the subject of every sentence; the name is not qualified
      by an owning type. */
  function Subject(k: Kind, name: string): string
  {
    Label(k) + " " + name
  }

  /** Renders a change as one of the three sentences. */
  function Encode(c: Change): string
  {
    match c.verb
    case Added => AddedPrefix + Subject(c.kind, c.name) + Period
    case Changed => ChangedPrefix + Subject(c.kind, c.name) + Period
    case Introduced => NewPrefix + Subject(c.kind, c.name) + NewSuffix
  }

  /** The record of a change: its sentence, from which the change can be read back. */
  function Record(c: Change): (r: ChangeRecord)
  {
    ChangeRecord(Encode(c))
  }

  /** `s` starts with `pre` and ends with `suf`, the two not overlapping. */
  predicate Framed(s: string, pre: string, suf: string)
  {
    && |pre| + |suf| <= |s|
    && s[..|pre|] == pre
    && s[|s| - |suf|..] == suf
  }

  /** What lies between the frame of a framed sentence. */
  function Inner(s: string, pre: string, suf: string): (m: string)
    requires Framed(s, pre, suf)
    ensures pre + m + suf == s
    ensures |m| == |s| - |pre| - |suf|
  {
    var m := s[|pre|..|s| - |suf|];
    assert s == s[..|pre|] + s[|pre|..|s| - |suf|] + s[|s| - |suf|..];
    m
  }

  lemma FramedConcat(pre: string, m: string, suf: string)
    ensures Framed(pre + m + suf, pre, suf)
    ensures Inner(pre + m + suf, pre, suf) == m
  {
    var s := pre + m + suf;
    assert s[..|pre|] == pre;
    assert s[|s| - |suf|..] == suf;
  }

  /** Recovers kind and name from a subject. */
  function DecodeSubject(s: string): (r: Option<(Kind, string)>)
    ensures r.Some? ==> Subject(r.value.0, r.value.1) == s
  {
    if Framed(s, "TYPE ", "") then Some((Type, Inner(s, "TYPE ", "")))
    else if Framed(s, "FIELD ", "") then Some((Field, Inner(s, "FIELD ", "")))
    else None
  }

  /** Recovers the change a sentence renders, or None for any other text. */
  function Decode(s: string): (r: Option<Change>)
    ensures r.Some? ==> Encode(r.value) == s
  {
    if Framed(s, NewPrefix, NewSuffix) then
      match DecodeSubject(Inner(s, NewPrefix, NewSuffix))
      case Some((k, n)) => Some(Change(Introduced, k, n))
      case None => None
    else if Framed(s, AddedPrefix, Period) then
      match DecodeSubject(Inner(s, AddedPrefix, Period))
      case Some((k, n)) => Some(Change(Added, k, n))
      case None => None
    else if Framed(s, ChangedPrefix, Period) then
      match DecodeSubject(Inner(s, ChangedPrefix, Period))
      case Some((k, n)) => Some(Change(Changed, k, n))
      case None => None
    else None
  }

  lemma DecodeSubjectOf(k: Kind, name: string)
    ensures DecodeSubject(Subject(k, name)) == Some((k, name))
  {
    match k
    case Type =>
      FramedConcat("TYPE ", name, "");
      assert Subject(k, name) == "TYPE " + name + "";
    case Field =>
      var s := Subject(k, name);
      FramedConcat("FIELD ", name, "");
      assert s == "FIELD " + name + "";
      assert s[0] == 'F';
  }

  /** Every sentence decodes back to the change it renders. */
  lemma DecodeEncode(c: Change)
    ensures Decode(Encode(c)) == Some(c)
  {
    var subj := Subject(c.kind, c.name);
    var s := Encode(c);
    DecodeSubjectOf(c.kind, c.name);
    match c.verb
    case Introduced =>
      FramedConcat(NewPrefix, subj, NewSuffix);
    case Added =>
      FramedConcat(AddedPrefix, subj, Period);
      assert s[0] == 'D';
      assert !Framed(s, NewPrefix, NewSuffix);
    case Changed =>
      FramedConcat(ChangedPrefix, subj, Period);
      assert s[0] == 'D';
      assert !Framed(s, NewPrefix, NewSuffix);
      assert s[12] == 'c';
      assert !Framed(s, AddedPrefix, Period);
  }

  /** Different changes are rendered as different records. */
  lemma RecordInjective(c1: Change, c2: Change)
    ensures Record(c1) == Record(c2) <==> c1 == c2
  {
    DecodeEncode(c1);
    DecodeEncode(c2);
  }
}
