/**
 The specification of `parse_node`: what one call returns (the node's field
 line) and how it changes the two registries, as functions of the node and
 of the registries before the call. `Converter.ParseNode` is proved to
 compute exactly this.

 The registry of definitions (`hash_to_struct_map`) is keyed by the body
 text itself, standing in for the hash of the body.
 */
module Parser {
  import opened Text
  import opened FieldTypes
  import opened NameResolver
  import opened DefinitionNames
  import opened FieldLines
  import opened Documents

  /** The process-wide state `parse_node` updates. */
  datatype Registries = Registries(definitions: map<string, Structure>, usage: Usage)

  const NoRegistries := Registries(map[], map[])

  /** The classification `parse_node` gives a node: by its lowercased name. */
  function KindOf(n: Node): FieldType
  {
    FieldTypeOf(Lowered(n.name))
  }

  /** The display name: the lowercased `name` attribute. */
  function FieldNameOf(n: Node): string
  {
    Lowered(n.nameAttr)
  }

  /** `parse_node(n)` run against `reg`: its field line and the registries after it. */
  function Parse(n: Node, reg: Registries): (string, Registries)
    decreases n, |n.children| + 1
  {
    var kind := KindOf(n);
    var fieldName := FieldNameOf(n);
    var candidate := DefinitionNameOf(fieldName, kind);
    if kind == Comment then ("", reg)
    else if !IsDefinitionKind(kind) then (FormatMandrillField(kind, candidate, fieldName), reg)
    else
      var (body, inner) := ParseChildren(n, |n.children|, reg);
      Register(kind, candidate, fieldName, body, inner)
  }

  /** The body of `n` from its first `k` children: each child's field line
      after a tab, the children parsed in document order. */
  function ParseChildren(n: Node, k: nat, reg: Registries): (string, Registries)
    requires k <= |n.children|
    decreases n, k
  {
    if k == 0 then ("", reg)
    else
      var (body, inner) := ParseChildren(n, k - 1, reg);
      var (line, after) := Parse(n.children[k - 1], inner);
      (body + "\t" + line, after)
  }

  /** The body `parse_node` builds for a definition node. */
  function BodyOf(n: Node, reg: Registries): string
  {
    ParseChildren(n, |n.children|, reg).0
  }

  /** A registered record's text is consistent with its own name: its
      wrapping is the one `set_prefix_and_postfix` gives, and its field line
      references it by that name. */
  predicate RecordConsistent(s: Structure)
  {
    && WithPrefixAndPostfix(s) == s
    && s.fieldString == FormatMandrillField(s.kind, s.definitionName, s.fieldNameValue)
  }

  /** The name `parse_node` gives a definition whose body is `body`: the
      name of the definition already registered under that body, or else the
      candidate as the resolver settles it; with the usage counts after. */
  function NameFor(candidate: string, body: string, reg: Registries): (string, Usage)
  {
    if body in reg.definitions then (reg.definitions[body].definitionName, reg.usage)
    else Resolve(candidate, reg.usage)
  }

  /** The deduplication and name resolution of `parse_node` for a definition
      whose body is `body`, and the registration of the finished record. */
  function Register(kind: FieldType, candidate: string, fieldName: string, body: string, reg: Registries): (res: (string, Registries))
    requires IsDefinitionKind(kind)
    ensures body in res.1.definitions && res.1.definitions == reg.definitions[body := res.1.definitions[body]]
    ensures var entry := res.1.definitions[body];
      && entry.children == body && entry.kind == kind && entry.fieldNameValue == fieldName
      && res.0 == entry.fieldString
    ensures body in reg.definitions ==>
      && res.1.definitions[body].definitionName == reg.definitions[body].definitionName
      && res.1.usage == reg.usage
    ensures body !in reg.definitions ==>
      (res.1.definitions[body].definitionName, res.1.usage) == Resolve(candidate, reg.usage)
  {
    var (name, usage) := NameFor(candidate, body, reg);
    var line := FormatMandrillField(kind, name, fieldName);
    var entry := WithPrefixAndPostfix(Structure(kind, name, fieldName, line, "", body, ""));
    (line, Registries(reg.definitions[body := entry], usage))
  }

  /** `reg2` is `reg1` after more parsing: no definition disappears or is
      renamed, and usage counts only grow. */
  ghost predicate Extends(reg1: Registries, reg2: Registries)
  {
    && reg1.definitions.Keys <= reg2.definitions.Keys
    && (forall k :: k in reg1.definitions ==> reg2.definitions[k].definitionName == reg1.definitions[k].definitionName)
    && UsageGrows(reg1.usage, reg2.usage)
  }

  /** `reg1` and `reg2` hold the same definitions under the same names and
      the same usage counts (other fields of the records may differ). */
  ghost predicate SameNames(reg1: Registries, reg2: Registries)
  {
    && reg1.definitions.Keys == reg2.definitions.Keys
    && (forall k :: k in reg1.definitions ==> reg2.definitions[k].definitionName == reg1.definitions[k].definitionName)
    && reg1.usage == reg2.usage
  }

  /** Every record sits under its own body and is a definition. */
  ghost predicate RecordsMatchKeys(definitions: map<string, Structure>)
  {
    forall k :: k in definitions ==> definitions[k].children == k && IsDefinitionKind(definitions[k].kind)
  }

  /** Every name is one the resolver handed out. */
  ghost predicate AllClaimed(definitions: map<string, Structure>, usage: Usage)
  {
    forall k :: k in definitions ==> Claimed(definitions[k].definitionName, usage)
  }

  /** No two definitions share a name. */
  ghost predicate NamesDistinct(definitions: map<string, Structure>)
  {
    forall k1, k2 :: k1 in definitions && k2 in definitions && k1 != k2 ==>
      definitions[k1].definitionName != definitions[k2].definitionName
  }

  /** The invariant of the registries: every record is consistent with its
      key, every name is one the resolver handed out, and no two definitions
      share a name. */
  ghost predicate WellFormed(reg: Registries)
  {
    && UsageWellFormed(reg.usage)
    && RecordsMatchKeys(reg.definitions)
    && AllClaimed(reg.definitions, reg.usage)
    && NamesDistinct(reg.definitions)
  }

  lemma WellFormedEmpty()
    ensures WellFormed(NoRegistries)
  {
  }

  lemma ExtendsTransitive(reg1: Registries, reg2: Registries, reg3: Registries)
    requires Extends(reg1, reg2) && Extends(reg2, reg3)
    ensures Extends(reg1, reg3)
  {
  }

  /** The record `Register` stores is consistent with the name it was given. */
  lemma RegisterRecordConsistent(kind: FieldType, candidate: string, fieldName: string, body: string, reg: Registries)
    requires IsDefinitionKind(kind)
    ensures var (line, after) := Register(kind, candidate, fieldName, body, reg);
      RecordConsistent(after.definitions[body])
  {
  }

  /** Registering one definition only adds a key or keeps the name of the
      existing one. */
  lemma RegisterExtends(kind: FieldType, candidate: string, fieldName: string, body: string, reg: Registries)
    requires IsDefinitionKind(kind)
    ensures Extends(reg, Register(kind, candidate, fieldName, body, reg).1)
  {
  }

  /** A registration seen only through its outcome: `after` replaces or adds
      the record under `body`, keeping the old name and counts on a hit and
      taking a fresh, now claimed name on a miss. */
  ghost predicate Registration(reg: Registries, after: Registries, body: string, kind: FieldType)
  {
    && body in after.definitions && after.definitions == reg.definitions[body := after.definitions[body]]
    && after.definitions[body].children == body && after.definitions[body].kind == kind
    && (body in reg.definitions ==>
          && after.definitions[body].definitionName == reg.definitions[body].definitionName
          && after.usage == reg.usage)
    && (body !in reg.definitions ==>
          && !Claimed(after.definitions[body].definitionName, reg.usage)
          && Claimed(after.definitions[body].definitionName, after.usage)
          && UsageWellFormed(after.usage)
          && UsageGrows(reg.usage, after.usage))
  }

  lemma RegistrationClaims(reg: Registries, after: Registries, body: string, kind: FieldType)
    requires AllClaimed(reg.definitions, reg.usage) && Registration(reg, after, body, kind)
    ensures AllClaimed(after.definitions, after.usage)
  {
    if body !in reg.definitions {
      forall k | k in after.definitions
        ensures Claimed(after.definitions[k].definitionName, after.usage)
      {
        if k != body {
          ClaimedGrows(reg.definitions[k].definitionName, reg.usage, after.usage);
        }
      }
    }
  }

  lemma RegistrationDistinct(reg: Registries, after: Registries, body: string, kind: FieldType)
    requires AllClaimed(reg.definitions, reg.usage) && NamesDistinct(reg.definitions)
    requires Registration(reg, after, body, kind)
    ensures NamesDistinct(after.definitions)
  {
    if body !in reg.definitions {
      var name := after.definitions[body].definitionName;
      forall k | k in reg.definitions
        ensures reg.definitions[k].definitionName != name
      {
        assert Claimed(reg.definitions[k].definitionName, reg.usage);
      }
    }
  }

  lemma RegistrationWellFormed(reg: Registries, after: Registries, body: string, kind: FieldType)
    requires WellFormed(reg) && IsDefinitionKind(kind) && Registration(reg, after, body, kind)
    ensures WellFormed(after)
  {
    RegistrationClaims(reg, after, body, kind);
    RegistrationDistinct(reg, after, body, kind);
  }

  /** Registering one definition keeps the registries well formed: in
      particular a new definition gets a name no other definition has. */
  lemma RegisterWellFormed(kind: FieldType, candidate: string, fieldName: string, body: string, reg: Registries)
    requires IsDefinitionKind(kind) && IsCandidate(candidate) && WellFormed(reg)
    ensures WellFormed(Register(kind, candidate, fieldName, body, reg).1)
  {
    var after := Register(kind, candidate, fieldName, body, reg).1;
    if body !in reg.definitions {
      ResolveFresh(candidate, reg.usage);
    }
    RegistrationWellFormed(reg, after, body, kind);
  }

  /** The field line of a registered definition references it by the name
      it ends up with. */
  lemma RegisterLine(kind: FieldType, candidate: string, fieldName: string, body: string, reg: Registries)
    requires IsDefinitionKind(kind)
    ensures var (line, after) := Register(kind, candidate, fieldName, body, reg);
      line == FormatMandrillField(kind, after.definitions[body].definitionName, fieldName)
  {
  }

  /** A deduplication hit: the field line uses the registered name, and no
      name or count changes. */
  lemma RegisterHit(kind: FieldType, candidate: string, fieldName: string, body: string, reg: Registries)
    requires IsDefinitionKind(kind) && body in reg.definitions
    ensures var (line, after) := Register(kind, candidate, fieldName, body, reg);
      && line == FormatMandrillField(kind, reg.definitions[body].definitionName, fieldName)
      && SameNames(reg, after)
  {
  }

  lemma SameNamesTransitive(reg1: Registries, reg2: Registries, reg3: Registries)
    requires SameNames(reg1, reg2) && SameNames(reg2, reg3)
    ensures SameNames(reg1, reg3)
  {
  }

  /** Parsing only extends the registries. */
  lemma {:induction false} ParseExtends(n: Node, reg: Registries)
    ensures Extends(reg, Parse(n, reg).1)
    decreases n, |n.children| + 1
  {
    var kind := KindOf(n);
    if kind != Comment && IsDefinitionKind(kind) {
      var (body, inner) := ParseChildren(n, |n.children|, reg);
      ParseChildrenExtends(n, |n.children|, reg);
      RegisterExtends(kind, DefinitionNameOf(FieldNameOf(n), kind), FieldNameOf(n), body, inner);
      ExtendsTransitive(reg, inner, Parse(n, reg).1);
    }
  }

  lemma {:induction false} ParseChildrenExtends(n: Node, k: nat, reg: Registries)
    requires k <= |n.children|
    ensures Extends(reg, ParseChildren(n, k, reg).1)
    decreases n, k
  {
    if k > 0 {
      var inner := ParseChildren(n, k - 1, reg).1;
      ParseChildrenExtends(n, k - 1, reg);
      ParseExtends(n.children[k - 1], inner);
      ExtendsTransitive(reg, inner, Parse(n.children[k - 1], inner).1);
    }
  }

  /** Parsing keeps the registries well formed. */
  lemma {:induction false} ParseWellFormed(n: Node, reg: Registries)
    requires WellFormed(reg)
    ensures WellFormed(Parse(n, reg).1)
    decreases n, |n.children| + 1
  {
    var kind := KindOf(n);
    if kind != Comment && IsDefinitionKind(kind) {
      var (body, inner) := ParseChildren(n, |n.children|, reg);
      ParseChildrenWellFormed(n, |n.children|, reg);
      DefinitionNameShape(FieldNameOf(n), kind);
      RegisterWellFormed(kind, DefinitionNameOf(FieldNameOf(n), kind), FieldNameOf(n), body, inner);
    }
  }

  lemma {:induction false} ParseChildrenWellFormed(n: Node, k: nat, reg: Registries)
    requires k <= |n.children| && WellFormed(reg)
    ensures WellFormed(ParseChildren(n, k, reg).1)
    decreases n, k
  {
    if k > 0 {
      ParseChildrenWellFormed(n, k - 1, reg);
      ParseWellFormed(n.children[k - 1], ParseChildren(n, k - 1, reg).1);
    }
  }

  /** A comment yields nothing and changes nothing; any other node that is
      not a definition yields its field line and changes nothing either. */
  lemma ParseNonDefinition(n: Node, reg: Registries)
    requires !IsDefinitionKind(KindOf(n))
    ensures Parse(n, reg).1 == reg
    ensures KindOf(n) == Comment ==> Parse(n, reg).0 == ""
    ensures KindOf(n) != Comment ==>
      Parse(n, reg).0 == FormatMandrillField(KindOf(n), DefinitionNameOf(FieldNameOf(n), KindOf(n)), FieldNameOf(n))
  {
  }

  /** A definition node's field line references the definition registered
      under its body, by that definition's final name. */
  lemma ParseDefinition(n: Node, reg: Registries)
    requires IsDefinitionKind(KindOf(n))
    ensures var (line, after) := Parse(n, reg);
      var body := BodyOf(n, reg);
      && body in after.definitions
      && line == FormatMandrillField(KindOf(n), after.definitions[body].definitionName, FieldNameOf(n))
      && line == after.definitions[body].fieldString
  {
  }

  /** Re-parsing a node later, against registries that extend the ones its
      first parse left behind, gives the same field line and neither adds a
      definition, renames one nor changes a usage count: the walker's second
      pass over nested nodes is always a deduplication hit. */
  lemma {:induction false} Reparse(n: Node, reg: Registries, later: Registries)
    requires Extends(Parse(n, reg).1, later)
    ensures Parse(n, later).0 == Parse(n, reg).0
    ensures SameNames(later, Parse(n, later).1)
    decreases n, |n.children| + 1
  {
    var kind := KindOf(n);
    if kind != Comment && IsDefinitionKind(kind) {
      var candidate, fieldName := DefinitionNameOf(FieldNameOf(n), kind), FieldNameOf(n);
      var (body, inner) := ParseChildren(n, |n.children|, reg);
      var first := Register(kind, candidate, fieldName, body, inner).1;
      assert Parse(n, reg) == Register(kind, candidate, fieldName, body, inner);
      RegisterExtends(kind, candidate, fieldName, body, inner);
      RegisterLine(kind, candidate, fieldName, body, inner);
      ExtendsTransitive(inner, first, later);
      ReparseChildren(n, |n.children|, reg, later);
      var inner' := ParseChildren(n, |n.children|, later).1;
      assert Parse(n, later) == Register(kind, candidate, fieldName, body, inner');
      assert inner'.definitions[body].definitionName == first.definitions[body].definitionName;
      RegisterHit(kind, candidate, fieldName, body, inner');
      SameNamesTransitive(later, inner', Parse(n, later).1);
    }
  }

  lemma {:induction false} ReparseChildren(n: Node, k: nat, reg: Registries, later: Registries)
    requires k <= |n.children|
    requires Extends(ParseChildren(n, k, reg).1, later)
    ensures ParseChildren(n, k, later).0 == ParseChildren(n, k, reg).0
    ensures SameNames(later, ParseChildren(n, k, later).1)
    decreases n, k
  {
    if k > 0 {
      var child := n.children[k - 1];
      var inner := ParseChildren(n, k - 1, reg).1;
      ParseExtends(child, inner);
      ExtendsTransitive(inner, Parse(child, inner).1, later);
      ReparseChildren(n, k - 1, reg, later);
      var (body, _) := ParseChildren(n, k - 1, reg);
      var (body', inner') := ParseChildren(n, k - 1, later);
      Reparse(child, inner, inner');
      var (line, _) := Parse(child, inner);
      var (line', after') := Parse(child, inner');
      assert ParseChildren(n, k, reg).0 == body + "\t" + line;
      assert ParseChildren(n, k, later) == (body' + "\t" + line', after');
      SameNamesTransitive(later, inner', after');
    }
  }

  lemma ParseChildrenSameChildren(n1: Node, n2: Node, k: nat, reg: Registries)
    requires n1.children == n2.children && k <= |n1.children|
    ensures ParseChildren(n1, k, reg) == ParseChildren(n2, k, reg)
  {
  }

  /** A definition node whose body is already registered once its children
      are parsed is a deduplication hit. */
  lemma ParseHit(n: Node, reg: Registries)
    requires IsDefinitionKind(KindOf(n))
    requires var (body, inner) := ParseChildren(n, |n.children|, reg); body in inner.definitions
    ensures var (body, inner) := ParseChildren(n, |n.children|, reg);
      && Parse(n, reg).0 == FormatMandrillField(KindOf(n), inner.definitions[body].definitionName, FieldNameOf(n))
      && SameNames(inner, Parse(n, reg).1)
  {
    var (body, inner) := ParseChildren(n, |n.children|, reg);
    var kind, fieldName := KindOf(n), FieldNameOf(n);
    var candidate := DefinitionNameOf(fieldName, kind);
    assert Parse(n, reg) == Register(kind, candidate, fieldName, body, inner);
    RegisterHit(kind, candidate, fieldName, body, inner);
  }

  /** After a definition node has been parsed, the registries extend its
      children's registries and hold its body under its final name. */
  lemma ParseRegisters(n: Node, reg: Registries)
    requires IsDefinitionKind(KindOf(n))
    ensures var (body, inner) := ParseChildren(n, |n.children|, reg);
      && Extends(inner, Parse(n, reg).1)
      && body in Parse(n, reg).1.definitions
  {
    var (body, inner) := ParseChildren(n, |n.children|, reg);
    var kind, fieldName := KindOf(n), FieldNameOf(n);
    var candidate := DefinitionNameOf(fieldName, kind);
    assert Parse(n, reg) == Register(kind, candidate, fieldName, body, inner);
    RegisterExtends(kind, candidate, fieldName, body, inner);
  }

  /** Two definition nodes with the same children, the second parsed after
      the first: the second is a deduplication hit. It adds no definition,
      leaves every usage count alone, and its field line references the
      definition the first one registered. */
  lemma SameChildrenShareDefinition(n1: Node, n2: Node, reg: Registries, later: Registries)
    requires IsDefinitionKind(KindOf(n1)) && IsDefinitionKind(KindOf(n2))
    requires n1.children == n2.children
    requires Extends(Parse(n1, reg).1, later)
    ensures var first := Parse(n1, reg).1;
      var body := BodyOf(n1, reg);
      && body in first.definitions
      && Parse(n2, later).0 == FormatMandrillField(KindOf(n2), first.definitions[body].definitionName, FieldNameOf(n2))
      && SameNames(later, Parse(n2, later).1)
  {
    var first := Parse(n1, reg).1;
    var (body, inner) := ParseChildren(n1, |n1.children|, reg);
    ParseRegisters(n1, reg);
    ExtendsTransitive(inner, first, later);
    ReparseChildren(n1, |n1.children|, reg, later);
    ParseChildrenSameChildren(n1, n2, |n1.children|, later);
    var inner' := ParseChildren(n2, |n2.children|, later).1;
    assert inner'.definitions[body].definitionName == first.definitions[body].definitionName;
    ParseHit(n2, later);
    SameNamesTransitive(later, inner', Parse(n2, later).1);
  }
}
