/**
 `format_definition_name`: the candidate name of a definition, built from the
 field's display name. Quotes are dropped, whitespace and `-` become `_`,
 every other character is lowercased, and the result is wrapped in the
 `chdt_` prefix and a suffix that depends on the kind.
 */
module DefinitionNames {
  import opened Text
  import opened FieldTypes
  import opened NameResolver

  /** `TAG`: the prefix of every generated name. */
  const Tag := "chdt"

  /** What one character of the display name contributes to the name. */
  function SanitizedChar(c: char): string
  {
    if c == '\'' || c == '"' then []
    else if IsSpace(c) || c == '-' then ['_']
    else [ToLower(c)]
  }

  /** The specification of the loop in `format_definition_name`. */
  function Sanitized(s: string): string
    decreases |s|
  {
    if s == [] then [] else Sanitized(s[..|s| - 1]) + SanitizedChar(s[|s| - 1])
  }

  function KindSuffix(kind: FieldType): string
  {
    if kind == TagBlock then "_block" else "_definition"
  }

  /** The candidate name `format_definition_name` computes. */
  function DefinitionNameOf(s: string, kind: FieldType): string
  {
    Tag + "_" + Sanitized(s) + KindSuffix(kind)
  }

  /** `format_definition_name`: appends to `result` one character at a time. */
  method FormatDefinitionName(s: string, kind: FieldType) returns (r: string)
    ensures r == DefinitionNameOf(s, kind)
  {
    r := Tag + "_";
    for i := 0 to |s|
      invariant r == Tag + "_" + Sanitized(s[..i])
    {
      assert s[..i + 1][..i] == s[..i];
      var c := s[i];
      if c == '\'' || c == '"' {
        continue;
      }
      if IsSpace(c) || c == '-' {
        r := r + ['_'];
      } else {
        r := r + [ToLower(c)];
      }
    }
    assert s[..|s|] == s;
    if kind == TagBlock {
      r := r + "_block";
    } else {
      r := r + "_definition";
    }
  }

  /** The transform works character by character, in order. */
  lemma {:induction false} SanitizedAppend(a: string, b: string)
    ensures Sanitized(a + b) == Sanitized(a) + Sanitized(b)
    decreases |b|
  {
    if b == [] {
      assert a + b == a;
    } else {
      var b', last := b[..|b| - 1], b[|b| - 1];
      assert (a + b)[..|a + b| - 1] == a + b';
      assert (a + b)[|a + b| - 1] == last;
      calc {
        Sanitized(a + b);
        Sanitized(a + b') + SanitizedChar(last);
        { SanitizedAppend(a, b'); }
        Sanitized(a) + Sanitized(b') + SanitizedChar(last);
        Sanitized(a) + Sanitized(b);
      }
    }
  }

  /** No quote character survives into a name. */
  lemma {:induction false} SanitizedQuoteFree(s: string)
    ensures forall i :: 0 <= i < |Sanitized(s)| ==> Sanitized(s)[i] != '\'' && Sanitized(s)[i] != '"'
    decreases |s|
  {
    if s != [] {
      SanitizedQuoteFree(s[..|s| - 1]);
    }
  }

  /** On a display name without quotes, every whitespace or `-` becomes `_`
      and every other character is lowercased, position by position. */
  lemma {:induction false} SanitizedCharwise(s: string)
    requires forall i :: 0 <= i < |s| ==> s[i] != '\'' && s[i] != '"'
    ensures |Sanitized(s)| == |s|
    ensures forall i :: 0 <= i < |s| ==>
      Sanitized(s)[i] == if IsSpace(s[i]) || s[i] == '-' then '_' else ToLower(s[i])
    decreases |s|
  {
    if s != [] {
      SanitizedCharwise(s[..|s| - 1]);
    }
  }

  /** Quote characters are dropped. */
  lemma QuotesDropped(s: string)
    ensures Sanitized(s + "'") == Sanitized(s) && Sanitized(s + "\"") == Sanitized(s)
  {
    assert (s + "'")[..|s|] == s;
    assert (s + "\"")[..|s|] == s;
  }

  /** Every candidate starts with `chdt_`, ends with `_block` exactly for tag
      blocks and with `_definition` otherwise, holds no quote and has the
      shape the name resolver relies on. */
  lemma DefinitionNameShape(s: string, kind: FieldType)
    ensures var r := DefinitionNameOf(s, kind);
      && r[..5] == "chdt_"
      && (kind == TagBlock ==> r[|r| - 6..] == "_block")
      && (kind != TagBlock ==> r[|r| - 11..] == "_definition")
      && (forall i :: 0 <= i < |r| ==> r[i] != '\'' && r[i] != '"')
      && IsCandidate(r)
  {
    var mid, suffix := Sanitized(s), KindSuffix(kind);
    var r := Tag + "_" + mid + suffix;
    SanitizedQuoteFree(s);
    assert r[..5] == "chdt_";
    assert r[|r| - |suffix|..] == suffix;
    assert forall i :: 0 <= i < |r| ==> r[i] != '\'' && r[i] != '"' by {
      forall i | 0 <= i < |r|
        ensures r[i] != '\'' && r[i] != '"'
      {
        if i < 5 {
          assert r[i] == "chdt_"[i];
        } else if i < 5 + |mid| {
          assert r[i] == mid[i - 5];
        } else {
          assert r[i] == suffix[i - 5 - |mid|];
        }
      }
    }
    assert r[|r| - 1] == suffix[|suffix| - 1];
  }
}
