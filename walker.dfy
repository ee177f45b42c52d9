/**
 The specification of `parse_node_and_children`: the walk over the whole
 plugin tree that parses every node not named `revisions`, `revision` or
 `plugin`, appends the field lines of the nodes at level 1 to the root block,
 and then walks the children one level deeper. The walk state is the pair of
 the registries and the root block's `children` text.
 */
module Walker {
  import Text
  import opened FieldTypes
  import opened NameResolver
  import opened Documents
  import opened Parser

  /** The part of `parse_node_and_children` that handles the node itself. */
  function Visit(n: Node, level: nat, reg: Registries, root: string): (Registries, string)
  {
    if IsUseless(n.name) then (reg, root)
    else
      var (line, after) := Parse(n, reg);
      (after, if level == 1 then root + "\t" + line else root)
  }

  /** `parse_node_and_children(n, level)` run from `reg` and `root`. */
  function Walk(n: Node, level: nat, reg: Registries, root: string): (Registries, string)
    decreases n, |n.children| + 1
  {
    var (reg', root') := Visit(n, level, reg, root);
    WalkChildren(n, |n.children|, level + 1, reg', root')
  }

  /** The walk over the first `k` children of `n`, each at `level`, in
      document order. */
  function WalkChildren(n: Node, k: nat, level: nat, reg: Registries, root: string): (Registries, string)
    requires k <= |n.children|
    decreases n, k
  {
    if k == 0 then (reg, root)
    else
      var (reg', root') := WalkChildren(n, k - 1, level, reg, root);
      Walk(n.children[k - 1], level, reg', root')
  }

  /** What `main` does before emitting: walk the document's `plugin` element
      from level 0 with empty registries and an empty root body. */
  function Conversion(doc: Node): (Registries, string)
  {
    Walk(ChildNamed(doc, "plugin"), 0, NoRegistries, "")
  }

  lemma ExtendsReflexive(reg: Registries)
    ensures Extends(reg, reg)
  {
  }

  lemma SameNamesExtends(reg1: Registries, reg2: Registries)
    requires SameNames(reg1, reg2)
    ensures Extends(reg1, reg2)
  {
  }

  lemma VisitExtends(n: Node, level: nat, reg: Registries, root: string)
    ensures Extends(reg, Visit(n, level, reg, root).0)
  {
    if !IsUseless(n.name) {
      ParseExtends(n, reg);
    }
  }

  /** The walk only extends the registries: no definition is dropped or
      renamed and no usage count shrinks. */
  lemma {:induction false} WalkExtends(n: Node, level: nat, reg: Registries, root: string)
    ensures Extends(reg, Walk(n, level, reg, root).0)
    decreases n, |n.children| + 1
  {
    var (reg', root') := Visit(n, level, reg, root);
    VisitExtends(n, level, reg, root);
    WalkChildrenExtends(n, |n.children|, level + 1, reg', root');
    ExtendsTransitive(reg, reg', Walk(n, level, reg, root).0);
  }

  lemma {:induction false} WalkChildrenExtends(n: Node, k: nat, level: nat, reg: Registries, root: string)
    requires k <= |n.children|
    ensures Extends(reg, WalkChildren(n, k, level, reg, root).0)
    decreases n, k
  {
    if k == 0 {
      ExtendsReflexive(reg);
    } else {
      var (reg', root') := WalkChildren(n, k - 1, level, reg, root);
      WalkChildrenExtends(n, k - 1, level, reg, root);
      WalkExtends(n.children[k - 1], level, reg', root');
      ExtendsTransitive(reg, reg', Walk(n.children[k - 1], level, reg', root').0);
    }
  }

  /** The walk keeps the registries well formed: every registered definition
      keeps a distinct name the resolver handed out. */
  lemma {:induction false} WalkWellFormed(n: Node, level: nat, reg: Registries, root: string)
    requires WellFormed(reg)
    ensures WellFormed(Walk(n, level, reg, root).0)
    decreases n, |n.children| + 1
  {
    var (reg', root') := Visit(n, level, reg, root);
    if !IsUseless(n.name) {
      ParseWellFormed(n, reg);
    }
    WalkChildrenWellFormed(n, |n.children|, level + 1, reg', root');
  }

  lemma {:induction false} WalkChildrenWellFormed(n: Node, k: nat, level: nat, reg: Registries, root: string)
    requires k <= |n.children| && WellFormed(reg)
    ensures WellFormed(WalkChildren(n, k, level, reg, root).0)
    decreases n, k
  {
    if k > 0 {
      var (reg', root') := WalkChildren(n, k - 1, level, reg, root);
      WalkChildrenWellFormed(n, k - 1, level, reg, root);
      WalkWellFormed(n.children[k - 1], level, reg', root');
    }
  }

  /** The whole conversion leaves well-formed registries. */
  lemma ConversionWellFormed(doc: Node)
    ensures WellFormed(Conversion(doc).0)
  {
    WellFormedEmpty();
    WalkWellFormed(ChildNamed(doc, "plugin"), 0, NoRegistries, "");
  }

  /** Below level 1 the walk never touches the root body. */
  lemma {:induction false} WalkDeepKeepsRoot(n: Node, level: nat, reg: Registries, root: string)
    requires level >= 2
    ensures Walk(n, level, reg, root).1 == root
    decreases n, |n.children| + 1
  {
    var (reg', root') := Visit(n, level, reg, root);
    WalkChildrenDeepKeepsRoot(n, |n.children|, level + 1, reg', root');
  }

  lemma {:induction false} WalkChildrenDeepKeepsRoot(n: Node, k: nat, level: nat, reg: Registries, root: string)
    requires k <= |n.children| && level >= 2
    ensures WalkChildren(n, k, level, reg, root).1 == root
    decreases n, k
  {
    if k > 0 {
      var (reg', root') := WalkChildren(n, k - 1, level, reg, root);
      WalkChildrenDeepKeepsRoot(n, k - 1, level, reg, root);
      WalkDeepKeepsRoot(n.children[k - 1], level, reg', root');
    }
  }

  lemma SameNamesReflexive(reg: Registries)
    ensures SameNames(reg, reg)
  {
  }

  /** No node of the subtree at `n` is a definition. */
  ghost predicate NoDefinitions(n: Node)
    decreases n
  {
    && !IsDefinitionKind(KindOf(n))
    && forall i {:trigger NoDefinitions(n.children[i])} :: 0 <= i < |n.children| ==> NoDefinitions(n.children[i])
  }

  /** The parse of a definition node already covers its subtree: every node
      below a definition is a definition whose own subtree is covered, or the
      root of a subtree without definitions (a field, a comment and its text,
      an option). */
  ghost predicate Covered(n: Node)
    decreases n
  {
    if IsDefinitionKind(KindOf(n)) then
      forall i {:trigger Covered(n.children[i])} :: 0 <= i < |n.children| ==> Covered(n.children[i])
    else NoDefinitions(n)
  }

  /** Walking a subtree without definitions changes no registry. */
  lemma {:induction false} WalkInert(n: Node, level: nat, reg: Registries, root: string)
    requires NoDefinitions(n)
    ensures Walk(n, level, reg, root).0 == reg
    decreases n, |n.children| + 1
  {
    var (reg', root') := Visit(n, level, reg, root);
    if !IsUseless(n.name) {
      ParseNonDefinition(n, reg);
    }
    WalkChildrenInert(n, |n.children|, level + 1, reg', root');
  }

  lemma {:induction false} WalkChildrenInert(n: Node, k: nat, level: nat, reg: Registries, root: string)
    requires k <= |n.children|
    requires forall i {:trigger NoDefinitions(n.children[i])} :: 0 <= i < |n.children| ==> NoDefinitions(n.children[i])
    ensures WalkChildren(n, k, level, reg, root).0 == reg
    decreases n, k
  {
    if k > 0 {
      var previous := WalkChildren(n, k - 1, level, reg, root);
      WalkChildrenInert(n, k - 1, level, reg, root);
      assert WalkChildren(n, k, level, reg, root) == Walk(n.children[k - 1], level, previous.0, previous.1);
      WalkInert(n.children[k - 1], level, previous.0, previous.1);
    }
  }

  /** The registries after parsing the first `i` children are extended by
      those after parsing the first `k`. */
  lemma {:induction false} ParseChildrenPrefixExtends(n: Node, i: nat, k: nat, reg: Registries)
    requires i <= k <= |n.children|
    ensures Extends(ParseChildren(n, i, reg).1, ParseChildren(n, k, reg).1)
    decreases k
  {
    if i == k {
      ExtendsReflexive(ParseChildren(n, i, reg).1);
    } else {
      var inner := ParseChildren(n, k - 1, reg).1;
      ParseChildrenPrefixExtends(n, i, k - 1, reg);
      ParseExtends(n.children[k - 1], inner);
      ExtendsTransitive(ParseChildren(n, i, reg).1, inner, ParseChildren(n, k, reg).1);
    }
  }

  /** Walking a covered node again, once its first parse has happened and
      only extended since, repeats it: no definition is added or renamed and
      no usage count changes. */
  lemma {:induction false} WalkRepeats(n: Node, level: nat, reg: Registries, later: Registries, root: string)
    requires Covered(n) && Extends(Parse(n, reg).1, later)
    ensures SameNames(later, Walk(n, level, later, root).0)
    decreases n, |n.children| + 1
  {
    var (reg', root') := Visit(n, level, later, root);
    if IsUseless(n.name) {
      SameNamesReflexive(later);
    } else {
      Reparse(n, reg, later);
    }
    var after := WalkChildren(n, |n.children|, level + 1, reg', root').0;
    if IsDefinitionKind(KindOf(n)) {
      var inner := ParseChildren(n, |n.children|, reg).1;
      ParseRegisters(n, reg);
      ExtendsTransitive(inner, Parse(n, reg).1, later);
      SameNamesExtends(later, reg');
      ExtendsTransitive(inner, later, reg');
      WalkChildrenRepeats(n, |n.children|, level + 1, reg, reg', root');
      SameNamesTransitive(later, reg', after);
    } else {
      WalkChildrenInert(n, |n.children|, level + 1, reg', root');
    }
  }

  /** The parse of the `k`-th child during the first pass is extended by
      any registries that repeat the whole first pass. */
  lemma ChildParsedBefore(n: Node, k: nat, reg: Registries, later: Registries, current: Registries)
    requires 0 < k <= |n.children|
    requires Extends(ParseChildren(n, |n.children|, reg).1, later)
    requires SameNames(later, current)
    ensures Extends(Parse(n.children[k - 1], ParseChildren(n, k - 1, reg).1).1, current)
  {
    var first := Parse(n.children[k - 1], ParseChildren(n, k - 1, reg).1).1;
    assert first == ParseChildren(n, k, reg).1;
    ParseChildrenPrefixExtends(n, k, |n.children|, reg);
    ExtendsTransitive(first, ParseChildren(n, |n.children|, reg).1, later);
    SameNamesExtends(later, current);
    ExtendsTransitive(first, later, current);
  }

  lemma {:induction false} WalkChildrenRepeats(n: Node, k: nat, level: nat, reg: Registries, later: Registries, root: string)
    requires k <= |n.children|
    requires forall i {:trigger Covered(n.children[i])} :: 0 <= i < |n.children| ==> Covered(n.children[i])
    requires Extends(ParseChildren(n, |n.children|, reg).1, later)
    ensures SameNames(later, WalkChildren(n, k, level, later, root).0)
    decreases n, k
  {
    if k == 0 {
      SameNamesReflexive(later);
    } else {
      var previous := WalkChildren(n, k - 1, level, later, root);
      WalkChildrenRepeats(n, k - 1, level, reg, later, root);
      var inner := ParseChildren(n, k - 1, reg).1;
      ChildParsedBefore(n, k, reg, later, previous.0);
      WalkRepeats(n.children[k - 1], level, inner, previous.0, previous.1);
      SameNamesTransitive(later, previous.0, Walk(n.children[k - 1], level, previous.0, previous.1).0);
    }
  }

  /** The walker's second pass: once it has parsed a covered node, walking
      that node's subtree again registers nothing new, renames nothing and
      changes no usage count. */
  lemma NestedPassIsRepeat(n: Node, level: nat, reg: Registries, root: string)
    requires Covered(n) && !IsUseless(n.name)
    ensures SameNames(Visit(n, level, reg, root).0, Walk(n, level, reg, root).0)
  {
    var (reg', root') := Visit(n, level, reg, root);
    if IsDefinitionKind(KindOf(n)) {
      ParseRegisters(n, reg);
      WalkChildrenRepeats(n, |n.children|, level + 1, reg, reg', root');
    } else {
      WalkChildrenInert(n, |n.children|, level + 1, reg', root');
      SameNamesReflexive(reg');
    }
  }

  /** A node named `revisions`, `revision` or `plugin` gets no field line of
      its own and touches neither registry nor root body, but its children
      are still walked, one level deeper. */
  lemma WalkSkipsUseless(n: Node, level: nat, reg: Registries, root: string)
    requires IsUseless(n.name)
    ensures Walk(n, level, reg, root) == WalkChildren(n, |n.children|, level + 1, reg, root)
  {
  }

  /** The wrapper test compares the raw element name: a node whose name is a
      wrapper name in another case (`Plugin`, `REVISION`, ...) is not skipped
      but parsed like any other node. */
  lemma SkipIsCaseSensitive(n: Node, level: nat, reg: Registries, root: string)
    requires Text.Lowered(n.name) in {"revisions", "revision", "plugin"}
    requires n.name !in {"revisions", "revision", "plugin"}
    ensures !IsUseless(n.name)
    ensures Visit(n, level, reg, root) == (Parse(n, reg).1, if level == 1 then root + "\t" + Parse(n, reg).0 else root)
  {
  }

  /** The line a node at level 1 adds to the root body: its field line after
      a tab, or nothing when its name marks it as an organisational wrapper. */
  function TopLine(n: Node, reg: Registries): string
  {
    if IsUseless(n.name) then "" else "\t" + Parse(n, reg).0
  }

  /** A walk from level 1 adds exactly the node's own top line to the root
      body; everything below it is deeper. */
  lemma WalkTopLevel(n: Node, reg: Registries, root: string)
    ensures Walk(n, 1, reg, root).1 == root + TopLine(n, reg)
  {
    var (reg', root') := Visit(n, 1, reg, root);
    WalkChildrenDeepKeepsRoot(n, |n.children|, 2, reg', root');
  }

  /** The top lines of the first `k` children of `n`, each taken against the
      registries the walk has reached when it gets to that child. */
  function TopLines(n: Node, k: nat, reg: Registries): string
    requires k <= |n.children|
  {
    if k == 0 then ""
    else TopLines(n, k - 1, reg) + TopLine(n.children[k - 1], WalkChildren(n, k - 1, 1, reg, "").0)
  }

  /** Walking the children of the level-0 node from an empty root body
      builds exactly the top lines of the children, in document order. */
  lemma {:induction false} RootBody(n: Node, k: nat, reg: Registries)
    requires k <= |n.children|
    ensures WalkChildren(n, k, 1, reg, "").1 == TopLines(n, k, reg)
  {
    if k > 0 {
      var (reg', root') := WalkChildren(n, k - 1, 1, reg, "");
      RootBody(n, k - 1, reg);
      WalkTopLevel(n.children[k - 1], reg', root');
    }
  }

  /** The root body of the conversion is the top lines of the `plugin`
      element's children. */
  lemma ConversionRoot(doc: Node)
    ensures var plugin := ChildNamed(doc, "plugin");
      Conversion(doc).1 == TopLines(plugin, |plugin.children|, Visit(plugin, 0, NoRegistries, "").0)
  {
    var plugin := ChildNamed(doc, "plugin");
    RootBody(plugin, |plugin.children|, Visit(plugin, 0, NoRegistries, "").0);
  }
}
