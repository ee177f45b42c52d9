/**
 The type mapper: the closed classification of Assembly field types, the
 lookup from an Assembly type token to a classification (`get_field_type`),
 from a classification to a Mandrill field token (`get_mandrill_type`), and
 the derived predicates `is_enum_or_flags` and `is_useless`.
 */
module FieldTypes {
  import opened Text

  /** `field_type`: every kind of field the translator knows, plus `Undefined`
      for every token it does not. `Option` and `Bit` only ever become string
      literals on the Mandrill side. */
  datatype FieldType =
    | Undefined
    | Real | ByteInt | ShortInt | LongInt
    | ByteFlags | WordFlags | LongFlags
    | CharEnum | Enum | LongEnum
    | TagBlock | Color | TagRef | DataRef
    | String | StringId | Comment | Angle | Rect
    | Option | Bit

  /** The Assembly tokens of each kind, as a table: the reference against
      which the chain of comparisons in `FieldTypeOf` is checked. */
  function AssemblyTokens(t: FieldType): set<string>
  {
    match t
    case Real => {"float32"}
    case ByteInt => {"int8", "uint8"}
    case ShortInt => {"int16", "uint16"}
    case LongInt => {"int32", "uint32"}
    case ByteFlags => {"flags8"}
    case WordFlags => {"flags16"}
    case LongFlags => {"flags32"}
    case CharEnum => {"enum8"}
    case Enum => {"enum16"}
    case LongEnum => {"enum32"}
    case TagBlock => {"tagblock"}
    case Color => {"colorf"}
    case TagRef => {"tagref"}
    case DataRef => {"dataref"}
    case String => {"ascii"}
    case StringId => {"stringid"}
    case Comment => {"comment"}
    case Option => {"option"}
    case Bit => {"bit"}
    case Angle => {"degree"}
    case Rect => {"rect16"}
    case Undefined => {}
  }

  /** The chain of `str_equal` tests of `get_field_type`, in the order the
      tests are made: the first token equal to the input decides. */
  const TokenTable: seq<(string, FieldType)> := [
    ("float32", Real),
    ("int8", ByteInt), ("uint8", ByteInt),
    ("int16", ShortInt), ("uint16", ShortInt),
    ("int32", LongInt), ("uint32", LongInt),
    ("flags8", ByteFlags), ("flags16", WordFlags), ("flags32", LongFlags),
    ("enum8", CharEnum), ("enum16", Enum), ("enum32", LongEnum),
    ("tagblock", TagBlock), ("colorf", Color), ("tagref", TagRef), ("dataref", DataRef),
    ("ascii", String), ("stringid", StringId), ("comment", Comment),
    ("option", Option), ("bit", Bit), ("degree", Angle), ("rect16", Rect)
  ]

  /** Every token `get_field_type` recognises. */
  ghost const KnownTokens: set<string> := set i | 0 <= i < |TokenTable| :: TokenTable[i].0

  /** No token belongs to two kinds, so the table is a function. */
  lemma AssemblyTokensDisjoint(t1: FieldType, t2: FieldType, token: string)
    requires token in AssemblyTokens(t1) && token in AssemblyTokens(t2)
    ensures t1 == t2
  {
  }

  /** Every row of the chain agrees with the per-kind table, and no row
      yields `Undefined`. */
  lemma TokenTableRows()
    ensures forall i :: 0 <= i < |TokenTable| ==>
      TokenTable[i].1 != Undefined && TokenTable[i].0 in AssemblyTokens(TokenTable[i].1)
  {
  }

  /** The tests of a chain of rows from row `i` on: the first row whose
      token equals `token` decides. */
  function LookupFrom(table: seq<(string, FieldType)>, i: nat, token: string): FieldType
    decreases |table| - i
  {
    if i >= |table| then Undefined
    else if table[i].0 == token then table[i].1
    else LookupFrom(table, i + 1, token)
  }

  /** On a table without `Undefined` rows, the chain from row `i` yields
      `Undefined` exactly when no later row matches, and otherwise the kind
      of a matching row. */
  lemma {:induction false} LookupFromFound(table: seq<(string, FieldType)>, i: nat, token: string)
    requires forall j :: 0 <= j < |table| ==> table[j].1 != Undefined
    ensures LookupFrom(table, i, token) == Undefined <==>
      forall j :: i <= j < |table| ==> table[j].0 != token
    ensures LookupFrom(table, i, token) != Undefined ==>
      exists j :: i <= j < |table| && table[j] == (token, LookupFrom(table, i, token))
    decreases |table| - i
  {
    if i < |table| && table[i].0 != token {
      LookupFromFound(table, i + 1, token);
    }
  }

  /** `get_field_type`: a chain of `str_equal` tests, total and case-sensitive
      (callers lowercase first); a token outside the chain is `Undefined`,
      never an error. */
  function FieldTypeOf(token: string): FieldType
  {
    LookupFrom(TokenTable, 0, token)
  }

  /** `get_field_type` recognises exactly the known tokens, and maps each to
      the kind whose tokens include it. */
  lemma FieldTypeOfSpec(token: string)
    ensures FieldTypeOf(token) == Undefined <==> token !in KnownTokens
    ensures FieldTypeOf(token) != Undefined ==> token in AssemblyTokens(FieldTypeOf(token))
  {
    TokenTableRows();
    LookupFromFound(TokenTable, 0, token);
    if token in KnownTokens {
      var i :| 0 <= i < |TokenTable| && TokenTable[i].0 == token;
    }
  }

  /** Every token of the per-kind table is a row of the chain, under the
      same kind. */
  lemma AssemblyTokensInTable(t: FieldType, token: string)
    requires token in AssemblyTokens(t)
    ensures (token, t) in TokenTable
  {
  }

  /** The per-kind table and the chain agree in both directions: a token
      belongs to a defined kind exactly when `get_field_type` maps it to that
      kind. */
  lemma FieldTypeOfReference(t: FieldType, token: string)
    requires t != Undefined
    ensures token in AssemblyTokens(t) <==> FieldTypeOf(token) == t
  {
    FieldTypeOfSpec(token);
    if token in AssemblyTokens(t) {
      AssemblyTokensInTable(t, token);
      var i :| 0 <= i < |TokenTable| && TokenTable[i] == (token, t);
      assert TokenTable[i].0 in KnownTokens;
      AssemblyTokensDisjoint(t, FieldTypeOf(token), token);
    }
  }

  /** The placeholder written for a kind with no Mandrill counterpart. */
  const Placeholder := "undefined_fixme"

  /** The cases of the `switch` in `get_mandrill_type`, in source order;
      every other kind falls through to the placeholder. */
  const MandrillTokens: seq<(FieldType, string)> := [
    (Real, "_field_real"),
    (ByteInt, "_field_byte_integer"), (ShortInt, "_field_short_integer"), (LongInt, "_field_long_integer"),
    (ByteFlags, "_field_byte_flags"), (WordFlags, "_field_word_flags"), (LongFlags, "_field_long_flags"),
    (CharEnum, "_field_char_enum"), (Enum, "_field_enum"), (LongEnum, "_field_long_enum"),
    (TagBlock, "_field_block"), (Color, "_field_real_argb_color"), (TagRef, "_field_tag_reference"),
    (DataRef, "_field_data"), (String, "_field_string"), (StringId, "_field_string_id"),
    (Comment, "_field_explanation"), (Angle, "_field_angle"), (Rect, "_field_rectangle_2d")
  ]

  /** The cases of a `switch` from case `i` on: the first case for `t`
      decides, and a kind with no case gets the placeholder. */
  function CaseFrom(table: seq<(FieldType, string)>, i: nat, t: FieldType): string
    decreases |table| - i
  {
    if i >= |table| then Placeholder
    else if table[i].0 == t then table[i].1
    else CaseFrom(table, i + 1, t)
  }

  /** `get_mandrill_type`. */
  function MandrillType(t: FieldType): string
  {
    CaseFrom(MandrillTokens, 0, t)
  }

  /** On a table whose cases never yield the placeholder, the cases from `i`
      on yield the placeholder exactly when none of them is for `t`, and
      otherwise the token of a case for `t`. */
  lemma {:induction false} CaseFromFound(table: seq<(FieldType, string)>, i: nat, t: FieldType)
    requires forall j :: 0 <= j < |table| ==> table[j].1 != Placeholder
    ensures CaseFrom(table, i, t) == Placeholder <==> forall j :: i <= j < |table| ==> table[j].0 != t
    ensures CaseFrom(table, i, t) != Placeholder ==>
      exists j :: i <= j < |table| && table[j] == (t, CaseFrom(table, i, t))
    decreases |table| - i
  {
    if i < |table| && table[i].0 != t {
      CaseFromFound(table, i + 1, t);
    }
  }

  /** Every case of the `switch` is for a kind other than `Undefined`,
      `Option` and `Bit`, and writes a `_field_` token. */
  lemma MandrillTokensRows()
    ensures forall j :: 0 <= j < |MandrillTokens| ==>
      && MandrillTokens[j].0 !in {Undefined, Option, Bit}
      && MandrillTokens[j].1 != Placeholder
      && |MandrillTokens[j].1| > 7 && MandrillTokens[j].1[..7] == "_field_"
  {
  }

  /** No two cases of the `switch` write the same token. */
  lemma MandrillTokensDistinct()
    ensures forall j1, j2 :: 0 <= j1 < j2 < |MandrillTokens| ==> MandrillTokens[j1].1 != MandrillTokens[j2].1
  {
  }

  /** The `switch` has a case for every kind but `Undefined`, `Option` and
      `Bit`. */
  lemma MandrillTokensCover(t: FieldType)
    requires t !in {Undefined, Option, Bit}
    ensures exists j :: 0 <= j < |MandrillTokens| && MandrillTokens[j].0 == t
  {
    var j := match t
      case Real => 0 case ByteInt => 1 case ShortInt => 2 case LongInt => 3
      case ByteFlags => 4 case WordFlags => 5 case LongFlags => 6
      case CharEnum => 7 case Enum => 8 case LongEnum => 9
      case TagBlock => 10 case Color => 11 case TagRef => 12
      case DataRef => 13 case String => 14 case StringId => 15
      case Comment => 16 case Angle => 17 case _ => 18;
    assert MandrillTokens[j].0 == t;
  }

  /** `get_mandrill_type` writes the placeholder exactly for the kinds with
      no Mandrill counterpart, and a `_field_` token for every other kind. */
  lemma MandrillTypeSpec(t: FieldType)
    ensures MandrillType(t) == Placeholder <==> t in {Undefined, Option, Bit}
    ensures MandrillType(t) != Placeholder ==> |MandrillType(t)| > 7 && MandrillType(t)[..7] == "_field_"
  {
    MandrillTokensRows();
    CaseFromFound(MandrillTokens, 0, t);
    if t !in {Undefined, Option, Bit} {
      MandrillTokensCover(t);
    }
  }

  /** Distinct kinds with a Mandrill counterpart get distinct tokens. */
  lemma MandrillTypeInjective(t1: FieldType, t2: FieldType)
    requires MandrillType(t1) != Placeholder
    requires MandrillType(t1) == MandrillType(t2)
    ensures t1 == t2
  {
    MandrillTokensRows();
    MandrillTokensDistinct();
    CaseFromFound(MandrillTokens, 0, t1);
    CaseFromFound(MandrillTokens, 0, t2);
    var j1 :| 0 <= j1 < |MandrillTokens| && MandrillTokens[j1] == (t1, MandrillType(t1));
    var j2 :| 0 <= j2 < |MandrillTokens| && MandrillTokens[j2] == (t2, MandrillType(t2));
    assert j1 == j2;
  }

  /** `is_enum_or_flags`. */
  predicate IsEnumOrFlags(t: FieldType)
  {
    t == ByteFlags || t == WordFlags || t == LongFlags || t == CharEnum || t == Enum || t == LongEnum
  }

  /** The kinds that produce a definition of their own (a tag block or a
      string list) rather than just a field line. */
  predicate IsDefinitionKind(t: FieldType)
  {
    t == TagBlock || IsEnumOrFlags(t)
  }

  /** `is_useless`: the organisational wrappers of an Assembly plugin. The
      comparison is on the raw element name, not lowercased. */
  predicate IsUseless(name: string)
  {
    name == "revisions" || name == "revision" || name == "plugin"
  }
}
