# Assembly2Mandrill, modelled in Dafny

Assembly2Mandrill converts an Assembly plugin into Mandrill tag-definition
source. An Assembly plugin is an XML document that describes the binary
layout of a tag: blocks, enumerations, flag sets, references and primitive
fields.

The converter walks the plugin tree and classifies every node by its
lowercased element name. Each node becomes a one-line Mandrill field record.
A tag block or a string list (an enumeration or a flag set) also becomes a
definition, whose body is the field lines of its children.

Definitions with identical bodies are collapsed into one. Distinct bodies
that would share a name get a `$n` suffix. At the end, every definition is
written wrapped in its `TAG_BLOCK(...)` or `STRINGS(...)` text, followed by
the root `chdt_block`, which collects the field lines of the top-level
nodes.

The model has two layers:

* **Specification functions.**
  * `Parser.Parse` / `Parser.ParseChildren` describe what one call of
    `parse_node` returns and how it changes the two registries.
  * `Walker.Walk` / `Walker.WalkChildren` describe the same for
    `parse_node_and_children`.
  * `Emitter.Emission` describes the output text.

  The properties are proved about these functions: the registries stay well
  formed (distinct names, every name handed out by the resolver), a
  re-parse is a deduplication hit, every definition is emitted exactly once,
  and so on.
* **The program's own form.**
  * `lowercase` and `format_definition_name` are methods with loops.
  * The registries and the root tag block are fields of the class
    `Converter.Converter`. `ParseNode`, `ParseNodeAndChildren` and `Emit`
    update them in place.
  * Each method's postcondition equates its result and new state with the
    specification function of the old state.

Modules:

| module | file | models |
|---|---|---|
| `Text` | text.dfy | `str_equal`, `lowercase`, `std::to_string` |
| `FieldTypes` | field_types.dfy | `field_type`, `get_field_type`, `get_mandrill_type`, `is_enum_or_flags`, `is_useless` |
| `NameResolver` | name_resolver.dfy | `definition_name_usage_map` and the collision branch of `parse_node` |
| `DefinitionNames` | definition_names.dfy | `format_definition_name` |
| `FieldLines` | field_lines.dfy | `format_mandrill_field`, `structure`, `set_prefix_and_postfix`, the root tag block |
| `Documents` | documents.dfy | the parts of the XML node used: name, `name` attribute, children, `child(name)` |
| `Parser` | parser.dfy | `parse_node` as a function of the registries |
| `Walker` | walker.dfy | `parse_node_and_children` as a function of the registries and root body |
| `Emitter` | emitter.dfy | the output loop of `main` |
| `Converter` | converter.dfy | the global state and the imperative procedures |

## Model

| member | source | states |
|---|---|---|
| Text.Compare | Assembly2Mandrill/Assembly2Mandrill.cpp:12-15 | `compare` is 0 exactly when the strings are equal, negative exactly when `a` precedes `b` lexicographically (only the sign is modelled); so `str_equal` is string equality |
| Text.Lowercase | Assembly2Mandrill/Assembly2Mandrill.cpp:17-26 | the loop returns a string as long as the input with `tolower` applied at every position (equal to `Lowered`) |
| Text.LoweredCharwise | Assembly2Mandrill/Assembly2Mandrill.cpp:17-26 | the lowercased string keeps the length and lowercases position by position |
| Text.LoweredIdempotent | Assembly2Mandrill/Assembly2Mandrill.cpp:17-26 | lowercasing twice is lowercasing once, and the result holds no upper-case ASCII letter |
| Text.NatToString | Assembly2Mandrill/Assembly2Mandrill.cpp:248-249 | `to_string` of a count is a non-empty string of decimal digits, one digit exactly below 10, with no leading zero |
| Text.NatToStringValue | Assembly2Mandrill/Assembly2Mandrill.cpp:248-249 | the digits `to_string` writes for a count denote that count in decimal |
| Text.NatToStringInjective | Assembly2Mandrill/Assembly2Mandrill.cpp:248-249 | distinct counts give distinct suffix strings |
| FieldTypes.AssemblyTokensDisjoint | Assembly2Mandrill/Assembly2Mandrill.cpp:55-79 | no Assembly token is listed under two field kinds |
| FieldTypes.FieldTypeOfSpec | Assembly2Mandrill/Assembly2Mandrill.cpp:55-79 | the kind is `UNDEFINED` exactly for tokens outside the 24 known ones; otherwise it is the kind whose token set holds the token |
| FieldTypes.AssemblyTokensInTable | Assembly2Mandrill/Assembly2Mandrill.cpp:57-78 | every token of the per-kind table is one of the chain's tests, under the same kind |
| FieldTypes.FieldTypeOfReference | Assembly2Mandrill/Assembly2Mandrill.cpp:55-79 | for every defined kind, a token belongs to that kind's tokens exactly when `get_field_type` maps it to that kind |
| FieldTypes.MandrillTypeSpec | Assembly2Mandrill/Assembly2Mandrill.cpp:81-106 | `undefined_fixme` comes back exactly for `UNDEFINED`, `OPTION` and `BIT`; every other kind maps to a `_field_...` token |
| FieldTypes.MandrillTypeInjective | Assembly2Mandrill/Assembly2Mandrill.cpp:81-106 | two kinds with the same defined Mandrill token are the same kind |
| FieldTypes.MandrillTokensDistinct | Assembly2Mandrill/Assembly2Mandrill.cpp:84-103 | the switch's 19 cases return 19 different tokens |
| NameResolver.Resolve | Assembly2Mandrill/Assembly2Mandrill.cpp:244-255 | on a registry miss: a first request keeps the candidate and sets its count to 1; a later one increments the count and suffixes `$count`; no other count changes |
| NameResolver.FirstCollisionIsTwo | Assembly2Mandrill/Assembly2Mandrill.cpp:246-254 | the first clash on a candidate yields `candidate$2` |
| NameResolver.SuffixedInjective | Assembly2Mandrill/Assembly2Mandrill.cpp:246-254 | a resolved name determines its candidate and its count |
| NameResolver.ResolveFresh | Assembly2Mandrill/Assembly2Mandrill.cpp:244-255 | the resolver hands out a name not handed out before, claims it, and only grows the counts |
| NameResolver.ClaimedGrows | Assembly2Mandrill/Assembly2Mandrill.cpp:244-255 | a handed-out name stays handed out as counts grow |
| DefinitionNames.FormatDefinitionName | Assembly2Mandrill/Assembly2Mandrill.cpp:135-154 | the loop's result is `chdt_` + the sanitized display name + `_block` or `_definition` |
| DefinitionNames.SanitizedAppend | Assembly2Mandrill/Assembly2Mandrill.cpp:138-148 | the sanitizing works character by character, in order |
| DefinitionNames.SanitizedQuoteFree | Assembly2Mandrill/Assembly2Mandrill.cpp:141-142 | no quote survives into a name |
| DefinitionNames.SanitizedCharwise | Assembly2Mandrill/Assembly2Mandrill.cpp:144-147 | on a quote-free name, whitespace and `-` become `_` and every other character is lowercased, position by position |
| DefinitionNames.QuotesDropped | Assembly2Mandrill/Assembly2Mandrill.cpp:141-142 | a trailing quote adds nothing |
| DefinitionNames.DefinitionNameShape | Assembly2Mandrill/Assembly2Mandrill.cpp:135-154 | every candidate starts with `chdt_`, ends with `_block` exactly for tag blocks and with `_definition` otherwise, holds no quote, and never ends in a digit |
| FieldLines.FieldLineShape | Assembly2Mandrill/Assembly2Mandrill.cpp:172-191 | a bit or option is a bare quoted name; any other kind is a record of its Mandrill token and quoted name, with a reference exactly for tag blocks, tag references and string lists |
| FieldLines.FieldLineParts | Assembly2Mandrill/Assembly2Mandrill.cpp:176-190 | the if-chain's four record branches are one record shape around the reference text |
| FieldLines.TagBlockReferenceDoubled | Assembly2Mandrill/Assembly2Mandrill.cpp:149-150 | a tag block's field line references its name with `_block` appended a second time |
| FieldLines.WrappingShape | Assembly2Mandrill/Assembly2Mandrill.cpp:193-205 | only prefix and postfix change; a tag block gets `TAG_BLOCK(name, 65536)` and the terminator; a string list gets `STRINGS(name)` and `STRING_LIST`; other kinds are unchanged |
| FieldLines.RootBlock | Assembly2Mandrill/Assembly2Mandrill.cpp:299-301 | the root is a tag block named `chdt_block` with its wrapping already set |
| Documents.ChildNamed | Assembly2Mandrill/Assembly2Mandrill.cpp:303 | `child("plugin")` is the first child with that name, or the empty node when there is none |
| Parser.Register | Assembly2Mandrill/Assembly2Mandrill.cpp:234-264 | only the entry under the body changes; it holds the body, kind and field name, and the returned line is its field string; a hit keeps the stored name and every count, and a miss takes `Resolve`'s name and counts |
| Parser.RegisterRecordConsistent | Assembly2Mandrill/Assembly2Mandrill.cpp:256-261 | the stored record's wrapping and field line match its final name |
| Parser.RegisterExtends | Assembly2Mandrill/Assembly2Mandrill.cpp:239-264 | registering never drops or renames a definition and only grows counts |
| Parser.RegisterWellFormed | Assembly2Mandrill/Assembly2Mandrill.cpp:239-264 | registering keeps every record under its own body, every name handed out by the resolver, and all names distinct |
| Parser.RegisterLine | Assembly2Mandrill/Assembly2Mandrill.cpp:256-266 | the field line references the definition by the name it ends up with, never the pre-collision candidate |
| Parser.RegisterHit | Assembly2Mandrill/Assembly2Mandrill.cpp:240-243 | a dedup hit reuses the registered name and changes no name or count |
| Parser.ParseExtends | Assembly2Mandrill/Assembly2Mandrill.cpp:207-267 | parsing a node, children included, only extends the registries |
| Parser.ParseWellFormed | Assembly2Mandrill/Assembly2Mandrill.cpp:207-267 | parsing keeps the registries well formed |
| Parser.ParseNonDefinition | Assembly2Mandrill/Assembly2Mandrill.cpp:216-221 | a comment yields "" and any other non-definition yields its field line; neither changes a registry |
| Parser.ParseDefinition | Assembly2Mandrill/Assembly2Mandrill.cpp:224-266 | a definition's body is registered and its line references the registered name |
| Parser.Reparse | Assembly2Mandrill/Assembly2Mandrill.cpp:227-232 | parsing a node again after its first parse gives the same line, adds no definition, renames nothing and changes no count |
| Parser.ParseHit | Assembly2Mandrill/Assembly2Mandrill.cpp:239-243 | a definition whose body is already registered is a dedup hit |
| Parser.ParseRegisters | Assembly2Mandrill/Assembly2Mandrill.cpp:224-264 | after a definition is parsed, its body is registered on top of its children's registrations |
| Parser.SameChildrenShareDefinition | Assembly2Mandrill/Assembly2Mandrill.cpp:239-243 | a second definition with the same children references the first one's definition and registers nothing new |
| Walker.WalkExtends | Assembly2Mandrill/Assembly2Mandrill.cpp:269-282 | the walk only extends the registries |
| Walker.WalkWellFormed | Assembly2Mandrill/Assembly2Mandrill.cpp:269-282 | the walk keeps the registries well formed |
| Walker.ConversionWellFormed | Assembly2Mandrill/Assembly2Mandrill.cpp:303 | after the whole walk, definition names are distinct and all handed out by the resolver |
| Walker.WalkDeepKeepsRoot | Assembly2Mandrill/Assembly2Mandrill.cpp:274-275 | nodes at level 2 or deeper never touch the root body |
| Walker.WalkTopLevel | Assembly2Mandrill/Assembly2Mandrill.cpp:271-276 | a level-1 walk adds exactly its node's tab and field line to the root body, or nothing for a skipped node |
| Walker.RootBody | Assembly2Mandrill/Assembly2Mandrill.cpp:271-281 | the root body is the level-1 children's lines in document order |
| Walker.ConversionRoot | Assembly2Mandrill/Assembly2Mandrill.cpp:299-303 | the final root body is the plugin's children's top lines |
| Walker.WalkSkipsUseless | Assembly2Mandrill/Assembly2Mandrill.cpp:269-282 | a node named `revisions`, `revision` or `plugin` adds no line and changes no registry, but its children are still walked one level deeper |
| Walker.SkipIsCaseSensitive | Assembly2Mandrill/Assembly2Mandrill.cpp:128-133 | the wrapper test is on the raw name: a node whose name is `revisions`, `revision` or `plugin` in any other case (`Plugin`, `REVISION`, ...) is not skipped but parsed |
| Walker.WalkInert | Assembly2Mandrill/Assembly2Mandrill.cpp:269-282 | walking a subtree without definitions changes no registry |
| Walker.WalkRepeats | Assembly2Mandrill/Assembly2Mandrill.cpp:277-281 | walking an already parsed subtree again registers, renames and counts nothing |
| Walker.NestedPassIsRepeat | Assembly2Mandrill/Assembly2Mandrill.cpp:229 | the walker's second pass over a parsed definition's subtree changes no name and no count |
| Emitter.DefinitionsTextAppend | Assembly2Mandrill/Assembly2Mandrill.cpp:307-314 | the definitions' text is written piece by piece: the text of two runs of keys is the first run's text followed by the second's |
| Emitter.EmittedAt | Assembly2Mandrill/Assembly2Mandrill.cpp:307-314 | the text splits around any position into before, that definition's prefix + body + postfix + newline, and after |
| Emitter.EmittedOnce | Assembly2Mandrill/Assembly2Mandrill.cpp:307-314 | every registered definition sits at exactly one position of the enumeration |
| Emitter.EnumerationLength | Assembly2Mandrill/Assembly2Mandrill.cpp:307-314 | the loop writes exactly as many definitions as are registered |
| Converter.Converter.constructor | Assembly2Mandrill/Assembly2Mandrill.cpp:299-301 | the registries start empty and the root tag block is set up as `main` does |
| Converter.Converter.ParseNode | Assembly2Mandrill/Assembly2Mandrill.cpp:207-267 | the returned line and the new registries are `Parse` of the old registries; the root is untouched |
| Converter.Converter.ParseChildNodes | Assembly2Mandrill/Assembly2Mandrill.cpp:226-232 | the children loop builds `ParseChildren`'s body and registries |
| Converter.Converter.RegisterDefinition | Assembly2Mandrill/Assembly2Mandrill.cpp:234-264 | the stored record and the line are `Register` of the old registries |
| Converter.Converter.DefinitionName | Assembly2Mandrill/Assembly2Mandrill.cpp:239-255 | the chosen name and the counts after are `NameFor`, and no definition changes |
| Converter.Converter.ParseNodeAndChildren | Assembly2Mandrill/Assembly2Mandrill.cpp:269-282 | the new registries and root body are `Walk` of the old ones; only the root's body changes |
| Converter.Converter.WalkChildNodes | Assembly2Mandrill/Assembly2Mandrill.cpp:278-281 | the children loop is `WalkChildren` |
| Converter.Converter.Emit | Assembly2Mandrill/Assembly2Mandrill.cpp:305-318 | the output is a newline, every registered definition exactly once in an enumeration order, then the root block |
| Converter.Convert | Assembly2Mandrill/Assembly2Mandrill.cpp:299-318 | the whole output is `Emission` of the walk's registries and root body, with a duplicate-free enumeration of all registered definitions |

## Left out

- Argument handling, loading the XML file and writing the output file are
  left out (`main`'s asserts on `argc`, the load result and the stream).
  The output is returned as a string.
- The pugixml node is reduced to what the converter reads: the element
  name, the `name` attribute (empty when absent) and the children in
  document order. Text content and every other attribute are not modelled.
- The registry of definitions is keyed by the body text itself instead of
  `std::hash` of it, narrowed to `int`. Hash collisions between different
  bodies are therefore not modelled: in the source they would make a new
  body a false dedup hit. The `-1` "no hash" sentinel is not modelled
  either.
- The order in which `std::map` enumerates the hashes is not modelled.
  `Emit` enumerates the keys in an unspecified order and returns it as a
  ghost value.
- `split_into_lined_string` is not part of this model. It is only called
  from a commented-out line, because comments are not emitted.
- `mandrill_type` in `parse_node` (line 212) is computed and then unused.
  `format_mandrill_field` looks the token up again, and only that lookup
  is modelled.
- Characters are Dafny `char`s. `tolower` and `isspace` are modelled for
  the "C" locale on ASCII only; other locales and negative `char` values
  are not modelled.
- Usage counts are unbounded naturals, so the `int` overflow of
  `++definition_name_usage_map[...]` is not modelled.
- Walker.NestedPassIsRepeat: holds for subtrees where every node under a
  definition is either a definition or roots a definition-free subtree
  (`Covered`). Under a field or comment that itself holds a definition, the
  walker's pass registers that definition for the first time.
- The model follows the code as written, in particular:
  - a comment child still contributes a tab to its parent's body, and to
    the root body at level 1;
  - the walker descends into the children of every node, not only into
    containers;
  - `OPTION` and `BIT` also map to `undefined_fixme`;
  - six kinds (three flag widths, three enumeration widths) are string
    lists;
  - on a dedup hit the stored record is replaced by the new node's record,
    which keeps the old name.
