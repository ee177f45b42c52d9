/**
 The output `main` writes once the walk is over: a newline, then every
 registered definition (its opening text, its body and its closing text,
 then a newline) in the order the registry enumerates them, then the root
 tag block.

 The registry is enumerated in the order of the hashes of the bodies; the
 model leaves that order abstract as any duplicate-free enumeration of the
 registered bodies.
 */
module Emitter {
  import opened Text
  import opened FieldLines

  /** One definition as written: opening text, body, closing text. */
  function Render(s: Structure): string
  {
    s.prefix + s.children + s.postfix
  }

  /** `order` lists every key of `keys` exactly once and nothing else. */
  ghost predicate Enumerates(order: seq<string>, keys: set<string>)
  {
    && (forall i, j :: 0 <= i < j < |order| ==> order[i] != order[j])
    && (forall i :: 0 <= i < |order| ==> order[i] in keys)
    && (forall k :: k in keys ==> k in order)
  }

  /** Every key listed by `order` has a record in `definitions`. */
  predicate Listed(definitions: map<string, Structure>, order: seq<string>)
  {
    forall i :: 0 <= i < |order| ==> order[i] in definitions
  }

  /** The definitions of `order`, each rendered and followed by a newline. */
  function DefinitionsText(definitions: map<string, Structure>, order: seq<string>): string
    requires Listed(definitions, order)
    decreases |order|
  {
    if order == [] then ""
    else DefinitionsText(definitions, order[..|order| - 1]) + Render(definitions[order[|order| - 1]]) + "\n"
  }

  /** Everything `main` writes to the output file. */
  function Emission(definitions: map<string, Structure>, order: seq<string>, root: Structure): string
    requires Listed(definitions, order)
  {
    "\n" + DefinitionsText(definitions, order) + Render(root)
  }

  /** Writing a structure's three parts one after the other writes its
      rendering. */
  lemma RenderAppend(out: string, s: Structure)
    ensures out + s.prefix + s.children + s.postfix == out + Render(s)
  {
    Associative(out + s.prefix, s.children, s.postfix);
    Associative(out, s.prefix, s.children + s.postfix);
    Associative(s.prefix, s.children, s.postfix);
  }

  /** One more key adds its definition and a newline to the text. */
  lemma DefinitionsTextSnoc(definitions: map<string, Structure>, order: seq<string>, key: string)
    requires Listed(definitions, order) && key in definitions
    ensures Listed(definitions, order + [key])
    ensures DefinitionsText(definitions, order + [key]) == DefinitionsText(definitions, order) + Render(definitions[key]) + "\n"
  {
    assert (order + [key])[..|order + [key]| - 1] == order;
  }

  /** The definitions' text is written piece by piece: the text for two
      consecutive runs of keys is the text of the first run followed by the
      text of the second. */
  lemma {:induction false} DefinitionsTextAppend(definitions: map<string, Structure>, a: seq<string>, b: seq<string>)
    requires Listed(definitions, a) && Listed(definitions, b)
    ensures Listed(definitions, a + b)
    ensures DefinitionsText(definitions, a + b) == DefinitionsText(definitions, a) + DefinitionsText(definitions, b)
    decreases |b|
  {
    assert Listed(definitions, a + b) by {
      forall i | 0 <= i < |a + b|
        ensures (a + b)[i] in definitions
      {
        if i >= |a| {
          assert (a + b)[i] == b[i - |a|];
        }
      }
    }
    if b == [] {
      assert a + b == a;
    } else {
      var b' := b[..|b| - 1];
      var last := b[|b| - 1];
      assert (a + b)[..|a + b| - 1] == a + b';
      assert Listed(definitions, b');
      DefinitionsTextAppend(definitions, a, b');
      calc {
        DefinitionsText(definitions, a + b);
        DefinitionsText(definitions, a + b') + Render(definitions[last]) + "\n";
        DefinitionsText(definitions, a) + DefinitionsText(definitions, b') + Render(definitions[last]) + "\n";
        { Associative(DefinitionsText(definitions, a), DefinitionsText(definitions, b'), Render(definitions[last]) + "\n"); }
        DefinitionsText(definitions, a) + (DefinitionsText(definitions, b') + (Render(definitions[last]) + "\n"));
        { Associative(DefinitionsText(definitions, b'), Render(definitions[last]), "\n"); }
        DefinitionsText(definitions, a) + DefinitionsText(definitions, b);
      }
    }
  }

  /** The definitions' text around position `i`: the text before it, the
      definition at `i` with its newline, and the text after it. */
  lemma EmittedAt(definitions: map<string, Structure>, order: seq<string>, i: nat)
    requires Listed(definitions, order) && i < |order|
    ensures Listed(definitions, order[..i]) && Listed(definitions, order[i + 1..])
    ensures DefinitionsText(definitions, order) ==
      DefinitionsText(definitions, order[..i]) + (Render(definitions[order[i]]) + "\n") + DefinitionsText(definitions, order[i + 1..])
  {
    var through := order[..i + 1];
    var after := order[i + 1..];
    assert order == through + after;
    assert through[..|through| - 1] == order[..i];
    assert Listed(definitions, through) && Listed(definitions, after);
    DefinitionsTextAppend(definitions, through, after);
    Associative(DefinitionsText(definitions, order[..i]), Render(definitions[order[i]]), "\n");
  }

  /** Every registered definition is written exactly once: its key sits at
      exactly one position of the enumeration (and `EmittedAt` splits the
      text around that position). */
  lemma EmittedOnce(definitions: map<string, Structure>, order: seq<string>, key: string)
    requires Enumerates(order, definitions.Keys) && key in definitions
    ensures Listed(definitions, order)
    ensures exists i ::
      && 0 <= i < |order| && order[i] == key
      && (forall j :: 0 <= j < |order| && j != i ==> order[j] != key)
  {
    var i :| 0 <= i < |order| && order[i] == key;
    forall j | 0 <= j < |order| && j != i
      ensures order[j] != key
    {
      if j < i {
        assert order[j] != order[i];
      } else {
        assert order[i] != order[j];
      }
    }
  }

  /** A duplicate-free enumeration is as long as the set it enumerates. */
  lemma {:induction false} EnumerationLength(order: seq<string>, keys: set<string>)
    requires Enumerates(order, keys)
    ensures |order| == |keys|
    decreases |order|
  {
    if order != [] {
      var last := order[|order| - 1];
      var rest := order[..|order| - 1];
      assert Enumerates(rest, keys - {last}) by {
        forall k | k in keys - {last}
          ensures k in rest
        {
          var i :| 0 <= i < |order| && order[i] == k;
          assert i != |order| - 1;
          assert rest[i] == k;
        }
      }
      EnumerationLength(rest, keys - {last});
    }
  }
}
