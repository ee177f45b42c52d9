/**
 The text the translator writes: the one-line field record of every field
 (`format_mandrill_field`), the `structure` record of a definition, and the
 wrapping text of a definition (`set_prefix_and_postfix`).
 */
module FieldLines {
  import opened Text
  import opened FieldTypes
  import opened DefinitionNames

  /** The kinds whose field line ends in a reference. */
  predicate HasReference(kind: FieldType)
  {
    kind == TagBlock || kind == TagRef || IsEnumOrFlags(kind)
  }

  /** What a reference points at: a tag block's definition name gets `_block`
      appended once more, a tag reference always points at the placeholder
      `tagref_fixme`, a string list at the definition name itself. */
  function ReferenceTarget(kind: FieldType, definitionName: string): string
    requires HasReference(kind)
  {
    if kind == TagBlock then definitionName + "_block"
    else if kind == TagRef then "tagref_fixme"
    else definitionName
  }

  /** `format_mandrill_field`: looks up the Mandrill token of the kind, then
      writes the line around it. */
  function FormatMandrillField(kind: FieldType, definitionName: string, fieldName: string): string
  {
    FieldLine(kind, MandrillType(kind), definitionName, fieldName)
  }

  /** The line `format_mandrill_field` writes once `mandrillType` is known. */
  function FieldLine(kind: FieldType, mandrillType: string, definitionName: string, fieldName: string): string
  {
    if kind == Bit || kind == Option then
      "\"" + fieldName + "\",\n"
    else
      var head := "{ " + mandrillType + ", \"" + fieldName + "\"";
      if kind == TagBlock then head + ", &" + definitionName + "_block },\n"
      else if kind == TagRef then head + ", &tagref_fixme },\n"
      else if IsEnumOrFlags(kind) then head + ", &" + definitionName + " },\n"
      else head + " },\n"
  }

  /** The reference a field line carries: present only for tag blocks, tag
      references and string lists. */
  function ReferenceText(kind: FieldType, definitionName: string): string
  {
    if HasReference(kind) then ", &" + ReferenceTarget(kind, definitionName) else ""
  }

  /** The line around any token, for every kind but bit and option: a record
      of the token and the quoted name, then the reference exactly for the
      kinds that have one, then the closing brace. */
  lemma FieldLineParts(kind: FieldType, mandrillType: string, definitionName: string, fieldName: string)
    requires kind != Bit && kind != Option
    ensures FieldLine(kind, mandrillType, definitionName, fieldName) ==
      "{ " + mandrillType + ", \"" + fieldName + "\"" + ReferenceText(kind, definitionName) + " },\n"
  {
    var head := "{ " + mandrillType + ", \"" + fieldName + "\"";
    var line := FieldLine(kind, mandrillType, definitionName, fieldName);
    if kind == TagBlock {
      assert line == head + ", &" + definitionName + "_block },\n";
      assert ReferenceText(kind, definitionName) == ", &" + (definitionName + "_block");
      BlockReferenceSplit(head, definitionName);
    } else if kind == TagRef {
      assert line == head + ", &tagref_fixme },\n";
      assert ReferenceText(kind, definitionName) == ", &" + "tagref_fixme";
      TagRefSplit(head);
    } else if IsEnumOrFlags(kind) {
      assert line == head + ", &" + definitionName + " },\n";
      assert ReferenceText(kind, definitionName) == ", &" + definitionName;
      Associative(head, ", &", definitionName);
    } else {
      assert line == head + " },\n";
      assert ReferenceText(kind, definitionName) == "";
      assert head + "" == head;
    }
  }

  lemma TagRefSplit(head: string)
    ensures head + ", &tagref_fixme },\n" == head + (", &" + "tagref_fixme") + " },\n"
  {
    assert ", &tagref_fixme },\n" == (", &" + "tagref_fixme") + " },\n";
    Associative(head, ", &" + "tagref_fixme", " },\n");
  }

  /** `format_mandrill_field`: a bit or option renders as a bare quoted name;
      every other kind as a record of its Mandrill token and quoted name, then
      the reference exactly for the kinds that have one, then the closing
      brace. */
  lemma FieldLineShape(kind: FieldType, definitionName: string, fieldName: string)
    ensures kind == Bit || kind == Option ==>
      FormatMandrillField(kind, definitionName, fieldName) == "\"" + fieldName + "\",\n"
    ensures kind != Bit && kind != Option ==>
      FormatMandrillField(kind, definitionName, fieldName) ==
        "{ " + MandrillType(kind) + ", \"" + fieldName + "\"" + ReferenceText(kind, definitionName) + " },\n"
  {
    if kind != Bit && kind != Option {
      FieldLineParts(kind, MandrillType(kind), definitionName, fieldName);
    }
  }

  /** The tag-block line cut into head, reference and closing brace. */
  lemma BlockReferenceSplit(head: string, definitionName: string)
    ensures head + ", &" + definitionName + "_block },\n" == head + (", &" + (definitionName + "_block")) + " },\n"
  {
    assert "_block },\n" == "_block" + " },\n";
    Associative(head + ", &", definitionName, "_block" + " },\n");
    Associative(definitionName, "_block", " },\n");
    Associative(head, ", &", definitionName + "_block");
    Associative(head + (", &" + (definitionName + "_block")), "", " },\n");
  }

  /** A tag block's field line names its definition with `_block` doubled:
      the candidate already ends in `_block`. */
  lemma TagBlockReferenceDoubled(fieldName: string)
    ensures var line := FormatMandrillField(TagBlock, DefinitionNameOf(fieldName, TagBlock), fieldName);
      line[|line| - 16..] == "_block_block },\n"
  {
    var stem := Tag + "_" + Sanitized(fieldName);
    assert DefinitionNameOf(fieldName, TagBlock) == stem + "_block";
    BlockLineSuffix(MandrillType(TagBlock), stem, fieldName);
  }

  /** A tag block line whose definition name ends in `_block` ends in
      `_block_block },\n`. */
  lemma BlockLineSuffix(mandrillType: string, stem: string, fieldName: string)
    ensures var line := FieldLine(TagBlock, mandrillType, stem + "_block", fieldName);
      line[|line| - 16..] == "_block_block },\n"
  {
    var head := "{ " + mandrillType + ", \"" + fieldName + "\"" + ", &";
    assert FieldLine(TagBlock, mandrillType, stem + "_block", fieldName) == head + (stem + "_block") + "_block },\n";
    Associative(head, stem, "_block");
    EndsWith(head + stem, "_block", "_block },\n");
    assert "_block" + "_block },\n" == "_block_block },\n";
  }

  /** The last `|b| + |c|` characters of `a + b + c` are `b + c`. */
  lemma EndsWith(a: string, b: string, c: string)
    ensures (a + b + c)[|a| ..] == b + c
  {
  }

  /** `structure`: one definition (or, for the root, the top-level block). */
  datatype Structure = Structure(
    kind: FieldType,
    definitionName: string,
    fieldNameValue: string,
    fieldString: string,
    prefix: string,
    children: string,
    postfix: string)

  /** A `structure` as declared, before any field is set. */
  const EmptyStructure := Structure(Undefined, "", "", "", "", "", "")

  /** `set_prefix_and_postfix`: the opening and closing text of a definition,
      chosen by kind. */
  function WithPrefixAndPostfix(s: Structure): Structure
  {
    if s.kind == TagBlock then
      s.(prefix := "TAG_BLOCK(" + s.definitionName + ", 65536)\n{\n",
         postfix := "\t{ _field_terminator }\n};\n")
    else if IsEnumOrFlags(s.kind) then
      s.(prefix := "STRINGS(" + s.definitionName + ")\n{\n",
         postfix := "};\nSTRING_LIST(" + s.definitionName + ", " + s.definitionName + "_strings, _countof(" + s.definitionName + "_strings));\n")
    else s
  }

  /** `set_prefix_and_postfix` changes only the prefix and postfix, leaves a
      record that is not a definition alone, and writes the block or string
      list wrapping around the record's own name. */
  lemma WrappingShape(s: Structure)
    ensures var r := WithPrefixAndPostfix(s);
      && r.(prefix := s.prefix, postfix := s.postfix) == s
      && (!IsDefinitionKind(s.kind) ==> r == s)
      && (s.kind == TagBlock ==>
            && r.prefix == "TAG_BLOCK(" + s.definitionName + ", 65536)\n{\n"
            && r.postfix == "\t{ _field_terminator }\n};\n")
      && (IsEnumOrFlags(s.kind) ==>
            && r.prefix == "STRINGS(" + s.definitionName + ")\n{\n"
            && r.postfix == "};\nSTRING_LIST(" + s.definitionName + ", " + s.definitionName + "_strings, _countof(" + s.definitionName + "_strings));\n")
  {
  }

  /** `root_tag_block` once `main` has set it up and the walker has filled
      in `children`. */
  function RootBlock(children: string): (r: Structure)
    ensures r.kind == TagBlock && r.definitionName == "chdt_block" && r.children == children
    ensures r.prefix == "TAG_BLOCK(chdt_block, 65536)\n{\n"
    ensures WithPrefixAndPostfix(r) == r
  {
    WithPrefixAndPostfix(EmptyStructure.(kind := TagBlock, definitionName := Tag + "_block")).(children := children)
  }
}
