/**
 The name resolver of `parse_node`: `definition_name_usage_map` counts how
 many distinct definitions asked for each candidate name. The first request
 keeps the candidate; the n-th (n >= 2) gets the candidate followed by `$`
 and the decimal count. Only candidates are ever entered in the map.
 */
module NameResolver {
  import opened Text

  /** `definition_name_usage_map`. */
  type Usage = map<string, nat>

  /** The shape of every candidate name: it never ends in a digit, so it can
      never look like an already suffixed name. */
  predicate IsCandidate(c: string)
  {
    |c| > 0 && !IsDigit(c[|c| - 1])
  }

  /** The name handed out for the `j`-th request of candidate `c`. */
  function Suffixed(c: string, j: nat): string
  {
    if j == 1 then c else c + "$" + NatToString(j)
  }

  /** `name` has already been handed out under `usage`. */
  ghost predicate Claimed(name: string, usage: Usage)
  {
    exists c, j :: c in usage && 1 <= j <= usage[c] && name == Suffixed(c, j)
  }

  ghost predicate UsageWellFormed(usage: Usage)
  {
    forall c :: c in usage ==> IsCandidate(c) && usage[c] >= 1
  }

  /** `usage2` is `usage1` after some further requests. */
  ghost predicate UsageGrows(usage1: Usage, usage2: Usage)
  {
    usage1.Keys <= usage2.Keys && forall c :: c in usage1 ==> usage1[c] <= usage2[c]
  }

  /** The registry-miss branch of `parse_node`: record one more request for
      `candidate` and return the name to use. */
  function Resolve(candidate: string, usage: Usage): (res: (string, Usage))
    ensures res.1.Keys == usage.Keys + {candidate}
    ensures forall c :: c in usage && c != candidate ==> res.1[c] == usage[c]
    ensures res.1[candidate] == if candidate in usage then usage[candidate] + 1 else 1
    ensures candidate !in usage ==> res.0 == candidate
    ensures candidate in usage ==> res.0 == candidate + "$" + NatToString(res.1[candidate])
  {
    if candidate in usage then
      var num := usage[candidate] + 1;
      assert usage[candidate := num].Keys == usage.Keys + {candidate};
      (candidate + "$" + NatToString(num), usage[candidate := num])
    else
      (candidate, usage[candidate := 1])
  }

  /** The first collision on a candidate yields `$2`. */
  lemma FirstCollisionIsTwo(candidate: string, usage: Usage)
    requires candidate !in usage
    ensures Resolve(candidate, usage).0 == candidate
    ensures Resolve(candidate, Resolve(candidate, usage).1).0 == candidate + "$2"
  {
    assert NatToString(2) == "2";
  }

  lemma DollarAt(c: string, d: string)
    ensures (c + "$" + d)[|c|] == '$'
  {
  }

  /** A name `c$d` splits back into `c` and `d` when `d` holds no `$`. */
  lemma SplitAtDollar(c1: string, d1: string, c2: string, d2: string)
    requires '$' !in d1 && '$' !in d2
    requires c1 + "$" + d1 == c2 + "$" + d2
    ensures c1 == c2 && d1 == d2
  {
    if |c1| < |c2| {
      DollarAt(c2, d2);
      assert false;
    } else if |c2| < |c1| {
      DollarAt(c1, d1);
      assert false;
    }
    var s := c1 + "$" + d1;
    assert c1 == s[..|c1|] == c2;
    assert d1 == s[|c1| + 1..] == d2;
  }

  /** Handed-out names are never reissued: two (candidate, count) pairs give
      the same name only if they are the same pair. */
  lemma SuffixedInjective(c1: string, j1: nat, c2: string, j2: nat)
    requires IsCandidate(c1) && IsCandidate(c2) && j1 >= 1 && j2 >= 1
    requires Suffixed(c1, j1) == Suffixed(c2, j2)
    ensures c1 == c2 && j1 == j2
  {
    if j1 >= 2 && j2 >= 2 {
      var d1, d2 := NatToString(j1), NatToString(j2);
      assert '$' !in d1 && '$' !in d2;
      SplitAtDollar(c1, d1, c2, d2);
      NatToStringInjective(j1, j2);
    } else if j1 >= 2 || j2 >= 2 {
      assert false;
    }
  }

  lemma ClaimedGrows(name: string, usage1: Usage, usage2: Usage)
    requires Claimed(name, usage1) && UsageGrows(usage1, usage2)
    ensures Claimed(name, usage2)
  {
    var c, j :| c in usage1 && 1 <= j <= usage1[c] && name == Suffixed(c, j);
    assert c in usage2 && 1 <= j <= usage2[c];
  }

  /** `Resolve` hands out a name nobody holds yet, claims it, and keeps every
      earlier claim. */
  lemma {:induction false} ResolveFresh(candidate: string, usage: Usage)
    requires UsageWellFormed(usage) && IsCandidate(candidate)
    ensures !Claimed(Resolve(candidate, usage).0, usage)
    ensures Claimed(Resolve(candidate, usage).0, Resolve(candidate, usage).1)
    ensures UsageWellFormed(Resolve(candidate, usage).1)
    ensures UsageGrows(usage, Resolve(candidate, usage).1)
  {
    var (name, usage') := Resolve(candidate, usage);
    assert name == Suffixed(candidate, usage'[candidate]);
    if Claimed(name, usage) {
      var c, j :| c in usage && 1 <= j <= usage[c] && name == Suffixed(c, j);
      SuffixedInjective(c, j, candidate, usage'[candidate]);
      assert false;
    }
    assert candidate in usage' && 1 <= usage'[candidate] <= usage'[candidate];
  }
}
