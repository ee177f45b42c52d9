/**
 The converter as the program runs it: the registry of definitions, the
 table of name usage counts and the root tag block are fields updated in
 place by `ParseNode` and `ParseNodeAndChildren`, and `Emit` writes the
 output. Each method is proved to do exactly what its specification
 function in `Parser`, `Walker` or `Emitter` describes.
 */
module Converter {
  import opened Text
  import opened FieldTypes
  import opened NameResolver
  import opened DefinitionNames
  import opened FieldLines
  import opened Documents
  import opened Parser
  import opened Walker
  import opened Emitter

  class Converter {
    /** `hash_to_struct_map`, keyed by the body text. */
    var definitions: map<string, Structure>
    /** `definition_name_usage_map`. */
    var usage: Usage
    /** `root_tag_block`. */
    var root: Structure

    /** The two registries as one value. */
    function State(): Registries
      reads this
    {
      Registries(definitions, usage)
    }

    /** Empty registries and the root tag block `main` sets up before the walk. */
    constructor ()
      ensures State() == NoRegistries && root == RootBlock("")
    {
      definitions := map[];
      usage := map[];
      root := WithPrefixAndPostfix(EmptyStructure.(kind := TagBlock, definitionName := Tag + "_block"));
    }

    /** `parse_node`: the node's field line; a definition node is parsed
        with all its children, then deduplicated by its body and registered. */
    method ParseNode(n: Node) returns (line: string)
      modifies this
      ensures (line, State()) == Parse(n, old(State()))
      ensures root == old(root)
      decreases n, 1
    {
      var lowered := Lowercase(n.name);
      var kind := FieldTypeOf(lowered);
      var fieldName := Lowercase(n.nameAttr);
      var definitionName := FormatDefinitionName(fieldName, kind);
      assert kind == KindOf(n) && fieldName == FieldNameOf(n);
      if kind == Comment {
        ParseNonDefinition(n, State());
        return "";
      }
      if kind == TagBlock || IsEnumOrFlags(kind) {
        var body := ParseChildNodes(n);
        assert Parse(n, old(State())) == Register(kind, definitionName, fieldName, body, State());
        line := RegisterDefinition(kind, definitionName, fieldName, body);
      } else {
        ParseNonDefinition(n, State());
        line := FormatMandrillField(kind, definitionName, fieldName);
      }
    }

    /** The loop of `parse_node` over a definition's children: each child's
        field line after a tab, in document order. */
    method ParseChildNodes(n: Node) returns (body: string)
      modifies this
      ensures (body, State()) == ParseChildren(n, |n.children|, old(State()))
      ensures root == old(root)
      decreases n, 0
    {
      body := "";
      for i := 0 to |n.children|
        invariant (body, State()) == ParseChildren(n, i, old(State()))
        invariant root == old(root)
      {
        var childLine := ParseNode(n.children[i]);
        body := body + "\t" + childLine;
      }
    }

    /** The second half of `parse_node` for a definition whose children
        gave `body`: settle its name, then wrap the record and store it under
        its body. */
    method RegisterDefinition(kind: FieldType, candidate: string, fieldName: string, body: string) returns (line: string)
      requires IsDefinitionKind(kind)
      modifies this
      ensures (line, State()) == Register(kind, candidate, fieldName, body, old(State()))
      ensures root == old(root)
    {
      var definitionName := DefinitionName(candidate, body);
      line := FormatMandrillField(kind, definitionName, fieldName);
      definitions := definitions[body := WithPrefixAndPostfix(Structure(kind, definitionName, fieldName, line, "", body, ""))];
    }

    /** The name of a definition whose body is `body`: reuse the name of the
        definition registered under the same body, or else count one more
        request for `candidate` and suffix it from the second request on. */
    method DefinitionName(candidate: string, body: string) returns (name: string)
      modifies this
      ensures (name, usage) == NameFor(candidate, body, old(State()))
      ensures definitions == old(definitions) && root == old(root)
    {
      name := candidate;
      if body in definitions {
        name := definitions[body].definitionName;
      } else if name in usage {
        var num := usage[name] + 1;
        usage := usage[name := num];
        name := name + "$" + NatToString(num);
      } else {
        usage := usage[name := 1];
      }
    }

    /** `parse_node_and_children`: parse the node unless its name marks it as
        an organisational wrapper, add a top-level node's field line to the
        root tag block, then walk every child one level deeper. */
    method ParseNodeAndChildren(n: Node, level: nat)
      modifies this
      ensures (State(), root.children) == Walk(n, level, old(State()), old(root.children))
      ensures root == old(root).(children := root.children)
      decreases n, 1
    {
      if !IsUseless(n.name) {
        var line := ParseNode(n);
        if level == 1 {
          root := root.(children := root.children + "\t" + line);
        }
      }
      assert (State(), root.children) == Visit(n, level, old(State()), old(root.children));
      WalkChildNodes(n, level + 1);
    }

    /** The loop of `parse_node_and_children` over the children, each walked
        at `level`, in document order. */
    method WalkChildNodes(n: Node, level: nat)
      modifies this
      ensures (State(), root.children) == WalkChildren(n, |n.children|, level, old(State()), old(root.children))
      ensures root == old(root).(children := root.children)
      decreases n, 0
    {
      for i := 0 to |n.children|
        invariant (State(), root.children) == WalkChildren(n, i, level, old(State()), old(root.children))
        invariant root == old(root).(children := root.children)
      {
        ghost var before := (State(), root.children);
        ParseNodeAndChildren(n.children[i], level);
        assert WalkChildren(n, i + 1, level, old(State()), old(root.children)) == Walk(n.children[i], level, before.0, before.1);
      }
    }

    /** The output loop of `main`: a newline, every registered definition in
        the registry's order followed by a newline, then the root tag block.
        The order is the registry's own and is returned as `order`. */
    method Emit() returns (out: string, ghost order: seq<string>)
      ensures Enumerates(order, definitions.Keys) && Listed(definitions, order)
      ensures out == Emission(definitions, order, root)
    {
      out := "\n";
      order := [];
      var remaining := definitions.Keys;
      while remaining != {}
        invariant remaining <= definitions.Keys
        invariant forall i :: 0 <= i < |order| ==> order[i] in definitions && order[i] !in remaining
        invariant forall i, j :: 0 <= i < j < |order| ==> order[i] != order[j]
        invariant forall k :: k in definitions && k !in remaining ==> k in order
        invariant out == "\n" + DefinitionsText(definitions, order)
        decreases |remaining|
      {
        var key :| key in remaining;
        var s := definitions[key];
        ghost var written := out;
        out := out + s.prefix;
        out := out + s.children;
        out := out + s.postfix;
        out := out + "\n";
        RenderAppend(written, s);
        DefinitionsTextSnoc(definitions, order, key);
        Associative("\n", DefinitionsText(definitions, order), Render(s));
        order := order + [key];
        remaining := remaining - {key};
      }
      ghost var written := out;
      out := out + root.prefix;
      out := out + root.children;
      out := out + root.postfix;
      RenderAppend(written, root);
    }
  }

  /** `main` after the file plumbing: set up the root tag block, walk the
      document's `plugin` element from level 0, then write the output. */
  method Convert(doc: Node) returns (out: string, ghost order: seq<string>)
    ensures var (reg, body) := Conversion(doc);
      && Enumerates(order, reg.definitions.Keys) && Listed(reg.definitions, order)
      && out == Emission(reg.definitions, order, RootBlock(body))
  {
    var converter := new Converter();
    converter.ParseNodeAndChildren(ChildNamed(doc, "plugin"), 0);
    out, order := converter.Emit();
  }
}
