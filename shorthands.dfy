/**
 * The shorthand deriver of `gs`: starting from one hand-written entry, every
 * leaf command whose command ancestors all have aliases gets a shorthand made
 * of the first alias of each of them, root first ("branch (b) create (c)"
 * gives "bc").  The table maps each shorthand to its alias fragments, not to
 * command names: "bc" expands to ["b", "c"] and the parser resolves those.
 *
 * `Derive` is the specification, a fold over the leaves; `DeriveShorthands` is
 * the loop of the program, proved equal to it; the lemmas below state what a
 * derived table holds and exactly when derivation fails.
 */
module Shorthands {
  import opened Wrappers
  import opened CommandTree

  /** Shorthand to the alias fragments it expands to. */
  type Table = map<string, seq<string>>

  /** The one hand-written shorthand. */
  const SeedKey: string := "can"
  const SeedPath: seq<string> := ["commit", "amend", "--no-edit"]

  /** The table before derivation. */
  const Seed: Table := map[SeedKey := SeedPath]

  /** The configuration defects on which the program panics at startup. */
  datatype Defect =
    | MissingAlias(node: nat)
      // a command node on a leaf's chain has no alias
    | DuplicateShorthand(shorthand: string, leaf: nat, other: seq<string>)
      // `leaf` yields a shorthand already in the table, there mapped to `other`

  /** A derived table entry. */
  datatype Entry = Entry(shorthand: string, path: seq<string>)

  /** `s` in reverse order (slices.Reverse). */
  function Reverse<T>(s: seq<T>): (r: seq<T>)
    ensures |r| == |s|
    ensures forall k :: 0 <= k < |s| ==> r[k] == s[|s| - 1 - k]
  {
    if s == [] then [] else [s[|s| - 1]] + Reverse(s[..|s| - 1])
  }

  /** The fragments joined with the empty separator (strings.Join(fragments, "")). */
  function Concat(fragments: seq<string>): (r: string)
    ensures fragments == [] ==> r == ""
    ensures forall i :: 0 <= i < |fragments| ==> |fragments[i]| <= |r|
  {
    if fragments == [] then "" else Concat(fragments[..|fragments| - 1]) + fragments[|fragments| - 1]
  }

  /** Joining distributes over concatenation of fragment lists. */
  lemma {:induction false} ConcatAppend(a: seq<string>, b: seq<string>)
    ensures Concat(a + b) == Concat(a) + Concat(b)
    decreases |b|
  {
    if b == [] {
      assert a + b == a;
    } else {
      var b' := b[..|b| - 1];
      assert (a + b)[..|a + b| - 1] == a + b';
      ConcatAppend(a, b');
    }
  }

  /** Joining peels off its first fragment as well as its last. */
  lemma ConcatCons(fragments: seq<string>)
    requires fragments != []
    ensures Concat(fragments) == fragments[0] + Concat(fragments[1..])
  {
    assert fragments == [fragments[0]] + fragments[1..];
    ConcatAppend([fragments[0]], fragments[1..]);
    assert [fragments[0]][..0] == [];
  }

  /**
   * The first alias of each command node met while walking up from `c`, nearest
   * first; the walk stops at nil or at the first node that is not a command.
   */
  function Fragments(t: Tree, c: Option<nat>): (r: Result<seq<string>, Defect>)
    requires t.Valid() && t.Holds(c)
    ensures r.Failure? ==>
      && r.error.MissingAlias? && r.error.node < |t.nodes|
      && t.IsCommand(Some(r.error.node)) && t.nodes[r.error.node].aliases == []
    decreases if c.Some? then c.value + 1 else 0
  {
    if !t.IsCommand(c) then Success([])
    else if |t.nodes[c.value].aliases| < 1 then Failure(MissingAlias(c.value))
    else
      match Fragments(t, t.nodes[c.value].parent)
      case Failure(e) => Failure(e)
      case Success(rest) => Success([t.nodes[c.value].aliases[0]] + rest)
  }

  /**
   * What leaf `n` contributes: nothing when it is not a command or has no alias,
   * or when its chain has fewer than two fragments; otherwise the entry keyed by
   * the concatenation of the root-to-leaf fragments.
   */
  function LeafShorthand(t: Tree, n: nat): (r: Result<Option<Entry>, Defect>)
    requires t.Valid() && n < |t.nodes|
    ensures r.Failure? ==> t.IsCommand(Some(n)) && |t.nodes[n].aliases| > 0
    ensures r.Failure? ==> Fragments(t, Some(n)) == Failure(r.error)
    ensures r.Success? && r.value.Some? ==>
      && |r.value.value.path| >= 2
      && r.value.value.shorthand == Concat(r.value.value.path)
      && t.FirstAliasIs(Some(n), r.value.value.path[|r.value.value.path| - 1])
  {
    if !t.IsCommand(Some(n)) || |t.nodes[n].aliases| == 0 then Success(None)
    else
      match Fragments(t, Some(n))
      case Failure(e) => Failure(e)
      case Success(fragments) =>
        if |fragments| < 2 then Success(None)
        else
          var path := Reverse(fragments);
          Success(Some(Entry(Concat(path), path)))
  }

  /** The entry leaf `n` contributes, if any (None also when it fails). */
  function Contribution(t: Tree, n: nat): Option<Entry>
    requires t.Valid() && n < |t.nodes|
  {
    match LeafShorthand(t, n)
    case Success(Some(e)) => Some(e)
    case _ => None
  }

  /** One iteration of the derivation loop on leaf `n` with table `m`. */
  function AddLeaf(t: Tree, m: Table, n: nat): (r: Result<Table, Defect>)
    requires t.Valid() && n < |t.nodes|
    ensures r.Success? ==> LeafShorthand(t, n).Success?
    ensures r.Failure? && r.error.MissingAlias? ==> LeafShorthand(t, n) == Failure(r.error)
    ensures r.Failure? && r.error.DuplicateShorthand? ==> r.error.leaf == n
    ensures r.Success? ==> forall k :: k in m ==> k in r.value && r.value[k] == m[k]
    ensures r.Success? && Contribution(t, n).Some? ==>
      && Contribution(t, n).value.shorthand !in m
      && r.value == m[Contribution(t, n).value.shorthand := Contribution(t, n).value.path]
    ensures r.Success? && Contribution(t, n).None? ==> r.value == m
  {
    match LeafShorthand(t, n)
    case Failure(e) => Failure(e)
    case Success(None) => Success(m)
    case Success(Some(e)) =>
      if e.shorthand in m then Failure(DuplicateShorthand(e.shorthand, n, m[e.shorthand]))
      else Success(m[e.shorthand := e.path])
  }

  /** Every leaf is a node of the tree. */
  predicate LeavesIn(t: Tree, leaves: seq<nat>) {
    forall i :: 0 <= i < |leaves| ==> leaves[i] < |t.nodes|
  }

  /** The table derived from the seed by visiting `leaves` in order, or the first defect met. */
  function Derive(t: Tree, leaves: seq<nat>): (r: Result<Table, Defect>)
    requires t.Valid() && LeavesIn(t, leaves)
    ensures r.Failure? ==> leaves != []
    ensures r.Failure? && r.error.MissingAlias? ==>
      r.error.node < |t.nodes| && t.IsCommand(Some(r.error.node)) && t.nodes[r.error.node].aliases == []
    ensures r.Failure? && r.error.DuplicateShorthand? ==> r.error.leaf in leaves
    decreases |leaves|
  {
    if leaves == [] then Success(Seed)
    else
      match Derive(t, leaves[..|leaves| - 1])
      case Failure(e) => Failure(e)
      case Success(m) => AddLeaf(t, m, leaves[|leaves| - 1])
  }

  /** `p` put in front of a successful fragment list. */
  function Prepend(p: seq<string>, r: Result<seq<string>, Defect>): Result<seq<string>, Defect>
  {
    match r
    case Failure(e) => Failure(e)
    case Success(s) => Success(p + s)
  }

  /**
   * The parent walk of one leaf (main.go:114-120): append the first alias of
   * each command node from `n` upwards; a command node without alias is a
   * defect.
   */
  method WalkFragments(t: Tree, n: nat) returns (r: Result<seq<string>, Defect>)
    requires t.Valid() && n < |t.nodes|
    ensures r == Fragments(t, Some(n))
  {
    var fragments: seq<string> := [];
    var c: Option<nat> := Some(n);
    if Fragments(t, c).Success? {
      assert [] + Fragments(t, c).value == Fragments(t, c).value;
    }
    while c.Some? && t.nodes[c.value].kind == CommandNode
      invariant t.Holds(c)
      invariant Fragments(t, Some(n)) == Prepend(fragments, Fragments(t, c))
      decreases if c.Some? then c.value + 1 else 0
    {
      var node := t.nodes[c.value];
      if |node.aliases| < 1 {
        return Failure(MissingAlias(c.value));
      }
      if Fragments(t, node.parent).Success? {
        var rest := Fragments(t, node.parent).value;
        assert fragments + ([node.aliases[0]] + rest) == (fragments + [node.aliases[0]]) + rest;
      }
      fragments := fragments + [node.aliases[0]];
      c := node.parent;
    }
    assert fragments + [] == fragments;
    return Success(fragments);
  }

  /**
   * The startup loop: for each leaf, collect the first aliases of its command
   * ancestors, reverse them, join them into a shorthand and insert it; fail if
   * it is already taken.
   */
  method DeriveShorthands(t: Tree, leaves: seq<nat>) returns (r: Result<Table, Defect>)
    requires t.Valid() && LeavesIn(t, leaves)
    ensures r == Derive(t, leaves)
  {
    var shorthands := Seed;
    for j := 0 to |leaves|
      invariant Derive(t, leaves[..j]) == Success(shorthands)
    {
      assert leaves[..j + 1][..j] == leaves[..j];
      var n := leaves[j];
      if !t.IsCommand(Some(n)) || |t.nodes[n].aliases| == 0 {
        continue;
      }

      var walked := WalkFragments(t, n);
      if walked.Failure? {
        DeriveAfterFailure(t, leaves, j + 1);
        return Failure(walked.error);
      }
      var fragments := walked.value;
      if |fragments| < 2 {
        continue;
      }

      fragments := Reverse(fragments);
      var shorthand := Concat(fragments);
      if shorthand in shorthands {
        DeriveAfterFailure(t, leaves, j + 1);
        return Failure(DuplicateShorthand(shorthand, n, shorthands[shorthand]));
      }
      shorthands := shorthands[shorthand := fragments];
    }
    assert leaves[..|leaves|] == leaves;
    return Success(shorthands);
  }

  /** Once a defect is met, the later leaves are never visited: the first defect is the outcome. */
  lemma {:induction false} DeriveAfterFailure(t: Tree, leaves: seq<nat>, j: nat)
    requires t.Valid() && LeavesIn(t, leaves)
    requires j <= |leaves| && Derive(t, leaves[..j]).Failure?
    ensures Derive(t, leaves) == Derive(t, leaves[..j])
    decreases |leaves| - j
  {
    if j == |leaves| {
      assert leaves[..j] == leaves;
    } else {
      assert leaves[..j + 1][..j] == leaves[..j];
      DeriveAfterFailure(t, leaves, j + 1);
    }
  }

  // ---------------------------------------------------------------------
  // The parent walk

  /** The k-th fragment is the first alias of the k-th node up from `c`, a command node. */
  lemma {:induction false} FragmentsAreFirstAliases(t: Tree, c: Option<nat>, k: nat)
    requires t.Valid() && t.Holds(c)
    requires Fragments(t, c).Success? && k < |Fragments(t, c).value|
    ensures t.FirstAliasIs(Ancestor(t, c, k), Fragments(t, c).value[k])
    decreases k
  {
    if k > 0 {
      FragmentsAreFirstAliases(t, t.nodes[c.value].parent, k - 1);
    }
  }

  /** The walk ends exactly at the first node that is nil or not a command. */
  lemma {:induction false} FragmentsStopAtNonCommand(t: Tree, c: Option<nat>)
    requires t.Valid() && t.Holds(c)
    requires Fragments(t, c).Success?
    ensures !t.IsCommand(Ancestor(t, c, |Fragments(t, c).value|))
    decreases if c.Some? then c.value + 1 else 0
  {
    if t.IsCommand(c) {
      FragmentsStopAtNonCommand(t, t.nodes[c.value].parent);
    }
  }

  /** A command node without alias reached through command nodes only makes the walk fail. */
  lemma {:induction false} FragmentsFailOnMissingAlias(t: Tree, c: Option<nat>, k: nat)
    requires t.Valid() && t.Holds(c)
    requires forall j :: 0 <= j <= k ==> t.IsCommand(Ancestor(t, c, j))
    requires t.IsCommand(Ancestor(t, c, k)) && t.nodes[Ancestor(t, c, k).value].aliases == []
    ensures Fragments(t, c).Failure?
    decreases k
  {
    assert Ancestor(t, c, 0) == c;
    if k > 0 && |t.nodes[c.value].aliases| > 0 {
      var p := t.nodes[c.value].parent;
      forall j | 0 <= j <= k - 1
        ensures t.IsCommand(Ancestor(t, p, j))
      {
        assert Ancestor(t, c, j + 1) == Ancestor(t, p, j);
      }
      assert Ancestor(t, c, k) == Ancestor(t, p, k - 1);
      FragmentsFailOnMissingAlias(t, p, k - 1);
    }
  }

  /** `x` is reached from `c` through command nodes only, `x` included. */
  ghost predicate OnCommandChain(t: Tree, c: Option<nat>, x: nat)
    requires t.Valid() && t.Holds(c)
  {
    exists k: nat :: Ancestor(t, c, k) == Some(x) && forall j :: 0 <= j <= k ==> t.IsCommand(Ancestor(t, c, j))
  }

  /**
   * `x` is the nearest command node without alias above `c`: it is reached
   * through command nodes only, and every node before it has an alias.
   */
  ghost predicate NearestUnaliased(t: Tree, c: Option<nat>, x: nat)
    requires t.Valid() && t.Holds(c)
  {
    && x < |t.nodes| && t.IsCommand(Some(x)) && t.nodes[x].aliases == []
    && exists k: nat :: Ancestor(t, c, k) == Some(x) && forall j :: 0 <= j < k ==> t.HasAlias(Ancestor(t, c, j))
  }

  /**
   * A failing walk names the nearest command node without alias, the one the
   * walk meets first; it lies on the command chain.
   */
  lemma {:induction false} FragmentsFailureNamesNode(t: Tree, c: Option<nat>)
    requires t.Valid() && t.Holds(c)
    requires Fragments(t, c).Failure?
    ensures Fragments(t, c).error.MissingAlias?
    ensures Fragments(t, c).error.node < |t.nodes|
    ensures t.nodes[Fragments(t, c).error.node].aliases == []
    ensures OnCommandChain(t, c, Fragments(t, c).error.node)
    ensures NearestUnaliased(t, c, Fragments(t, c).error.node)
    decreases if c.Some? then c.value + 1 else 0
  {
    var x := Fragments(t, c).error.node;
    if |t.nodes[c.value].aliases| < 1 {
      assert Ancestor(t, c, 0) == Some(x);
    } else {
      var p := t.nodes[c.value].parent;
      FragmentsFailureNamesNode(t, p);
      var k: nat :| Ancestor(t, p, k) == Some(x) && forall j :: 0 <= j <= k ==> t.IsCommand(Ancestor(t, p, j));
      assert Ancestor(t, c, k + 1) == Some(x);
      forall j | 0 <= j <= k + 1
        ensures t.IsCommand(Ancestor(t, c, j))
      {
        if j > 0 {
          assert Ancestor(t, c, j) == Ancestor(t, p, j - 1);
        }
      }
      var k': nat :| Ancestor(t, p, k') == Some(x) && forall j :: 0 <= j < k' ==> t.HasAlias(Ancestor(t, p, j));
      assert Ancestor(t, c, k' + 1) == Some(x);
      forall j | 0 <= j < k' + 1
        ensures t.HasAlias(Ancestor(t, c, j))
      {
        if j > 0 {
          assert Ancestor(t, c, j) == Ancestor(t, p, j - 1);
        }
      }
    }
  }

  // ---------------------------------------------------------------------
  // One leaf

  /**
   * A contributed entry lists, root first, the first alias of each of the
   * consecutive command nodes above and including the leaf, and the node above
   * the outermost of them is nil or not a command.
   */
  lemma LeafPathIsRootToLeafAliases(t: Tree, n: nat)
    requires t.Valid() && n < |t.nodes|
    requires Contribution(t, n).Some?
    ensures var path := Contribution(t, n).value.path;
      && (forall k :: 0 <= k < |path| ==> t.FirstAliasIs(Ancestor(t, Some(n), |path| - 1 - k), path[k]))
      && !t.IsCommand(Ancestor(t, Some(n), |path|))
  {
    var fragments := Fragments(t, Some(n)).value;
    var path := Contribution(t, n).value.path;
    assert path == Reverse(fragments);
    forall k | 0 <= k < |path|
      ensures t.FirstAliasIs(Ancestor(t, Some(n), |path| - 1 - k), path[k])
    {
      FragmentsAreFirstAliases(t, Some(n), |path| - 1 - k);
    }
    FragmentsStopAtNonCommand(t, Some(n));
  }

  /**
   * A command leaf with an alias fails exactly when a command node on its chain
   * has no alias; a leaf that is not a command, or has no alias, never fails.
   */
  lemma LeafShorthandFailsIff(t: Tree, n: nat)
    requires t.Valid() && n < |t.nodes|
    ensures LeafShorthand(t, n).Failure? <==>
      && t.IsCommand(Some(n)) && |t.nodes[n].aliases| > 0
      && exists x: nat :: OnCommandChain(t, Some(n), x) && t.nodes[x].aliases == []
  {
    if LeafShorthand(t, n).Failure? {
      FragmentsFailureNamesNode(t, Some(n));
    } else if t.IsCommand(Some(n)) && |t.nodes[n].aliases| > 0 {
      if x: nat :| OnCommandChain(t, Some(n), x) && t.nodes[x].aliases == [] {
        var k: nat :| Ancestor(t, Some(n), k) == Some(x) && forall j :: 0 <= j <= k ==> t.IsCommand(Ancestor(t, Some(n), j));
        FragmentsFailOnMissingAlias(t, Some(n), k);
      }
    }
  }

  /**
   * A leaf contributes an entry exactly when it is a command with an alias, its
   * parent is a command too (so the walk yields at least two fragments), and no
   * command node on its chain lacks an alias.
   */
  lemma LeafContributesIff(t: Tree, n: nat)
    requires t.Valid() && n < |t.nodes|
    ensures Contribution(t, n).Some? <==>
      && t.IsCommand(Some(n)) && |t.nodes[n].aliases| > 0
      && t.IsCommand(t.nodes[n].parent)
      && !(exists x: nat :: OnCommandChain(t, Some(n), x) && t.nodes[x].aliases == [])
  {
    LeafShorthandFailsIff(t, n);
    if t.IsCommand(Some(n)) && |t.nodes[n].aliases| > 0 && Fragments(t, Some(n)).Success? {
      var p := t.nodes[n].parent;
      assert Fragments(t, Some(n)).value == [t.nodes[n].aliases[0]] + Fragments(t, p).value;
      if t.IsCommand(p) && |t.nodes[p.value].aliases| > 0 {
        assert |Fragments(t, p).value| >= 1;
      }
    }
  }

  // ---------------------------------------------------------------------
  // The whole table

  /** The hand-written entry survives derivation unchanged. */
  lemma {:induction false} DeriveKeepsSeed(t: Tree, leaves: seq<nat>)
    requires t.Valid() && LeavesIn(t, leaves)
    requires Derive(t, leaves).Success?
    ensures SeedKey in Derive(t, leaves).value
    ensures Derive(t, leaves).value[SeedKey] == SeedPath
    decreases |leaves|
  {
    if leaves != [] {
      DeriveKeepsSeed(t, leaves[..|leaves| - 1]);
    }
  }

  /** Every leaf was visited without defect and every contribution is in the table as contributed. */
  lemma {:induction false} DeriveRecordsContributions(t: Tree, leaves: seq<nat>)
    requires t.Valid() && LeavesIn(t, leaves)
    requires Derive(t, leaves).Success?
    ensures forall i :: 0 <= i < |leaves| ==> LeafShorthand(t, leaves[i]).Success?
    ensures forall i :: 0 <= i < |leaves| && Contribution(t, leaves[i]).Some? ==>
      && Contribution(t, leaves[i]).value.shorthand in Derive(t, leaves).value
      && Derive(t, leaves).value[Contribution(t, leaves[i]).value.shorthand] == Contribution(t, leaves[i]).value.path
    decreases |leaves|
  {
    if leaves != [] {
      var prefix := leaves[..|leaves| - 1];
      DeriveRecordsContributions(t, prefix);
      assert forall i :: 0 <= i < |prefix| ==> prefix[i] == leaves[i];
    }
  }

  /** Every key of the table is the hand-written one or the shorthand some leaf contributed, with its path. */
  lemma {:induction false} DeriveInventsNothing(t: Tree, leaves: seq<nat>)
    requires t.Valid() && LeavesIn(t, leaves)
    requires Derive(t, leaves).Success?
    ensures forall k :: k in Derive(t, leaves).value ==>
      || k == SeedKey
      || exists i :: 0 <= i < |leaves| && Contribution(t, leaves[i]) == Some(Entry(k, Derive(t, leaves).value[k]))
    decreases |leaves|
  {
    if leaves != [] {
      var prefix := leaves[..|leaves| - 1];
      var last := |leaves| - 1;
      DeriveInventsNothing(t, prefix);
      var m := Derive(t, prefix).value;
      var m' := Derive(t, leaves).value;
      var n := leaves[last];
      assert Derive(t, leaves) == AddLeaf(t, m, n);
      forall k | k in m' && k != SeedKey
        ensures exists i :: 0 <= i < |leaves| && Contribution(t, leaves[i]) == Some(Entry(k, m'[k]))
      {
        if Contribution(t, n).Some? && k == Contribution(t, n).value.shorthand {
          assert m'[k] == Contribution(t, n).value.path;
          assert Contribution(t, leaves[last]) == Some(Entry(k, m'[k]));
        } else {
          assert k in m && m'[k] == m[k];
          var i :| 0 <= i < |prefix| && Contribution(t, prefix[i]) == Some(Entry(k, m[k]));
          assert prefix[i] == leaves[i];
        }
      }
    }
  }

  /**
   * The declarations are free of configuration defects: no leaf's chain is
   * missing an alias, no contributed shorthand is the hand-written one and no
   * two leaves contribute the same shorthand.
   */
  ghost predicate WellDeclared(t: Tree, leaves: seq<nat>)
    requires t.Valid() && LeavesIn(t, leaves)
  {
    && (forall i :: 0 <= i < |leaves| ==> LeafShorthand(t, leaves[i]).Success?)
    && (forall i :: 0 <= i < |leaves| && Contribution(t, leaves[i]).Some? ==>
          Contribution(t, leaves[i]).value.shorthand != SeedKey)
    && (forall i, j :: 0 <= i < j < |leaves| && Contribution(t, leaves[i]).Some? && Contribution(t, leaves[j]).Some? ==>
          Contribution(t, leaves[i]).value.shorthand != Contribution(t, leaves[j]).value.shorthand)
  }

  /** Adding a leaf that fails on nothing and collides with nothing keeps the declarations free of defects. */
  lemma WellDeclaredExtend(t: Tree, prefix: seq<nat>, n: nat)
    requires t.Valid() && LeavesIn(t, prefix) && n < |t.nodes|
    requires WellDeclared(t, prefix)
    requires LeafShorthand(t, n).Success?
    requires Contribution(t, n).Some? ==> Contribution(t, n).value.shorthand != SeedKey
    requires forall i :: 0 <= i < |prefix| && Contribution(t, prefix[i]).Some? && Contribution(t, n).Some? ==>
      Contribution(t, prefix[i]).value.shorthand != Contribution(t, n).value.shorthand
    ensures LeavesIn(t, prefix + [n]) && WellDeclared(t, prefix + [n])
  {
    var leaves := prefix + [n];
    assert forall i :: 0 <= i < |prefix| ==> leaves[i] == prefix[i];
    assert leaves[|prefix|] == n;
  }

  /** A successful derivation met no defect. */
  lemma {:induction false} DeriveSuccessIsWellDeclared(t: Tree, leaves: seq<nat>)
    requires t.Valid() && LeavesIn(t, leaves)
    requires Derive(t, leaves).Success?
    ensures WellDeclared(t, leaves)
    decreases |leaves|
  {
    if leaves != [] {
      var prefix := leaves[..|leaves| - 1];
      var n := leaves[|leaves| - 1];
      assert leaves == prefix + [n];
      DeriveSuccessIsWellDeclared(t, prefix);
      DeriveKeepsSeed(t, prefix);
      DeriveRecordsContributions(t, prefix);
      WellDeclaredExtend(t, prefix, n);
    }
  }

  /** Declarations free of defects derive successfully. */
  lemma {:induction false} WellDeclaredDeriveSucceeds(t: Tree, leaves: seq<nat>)
    requires t.Valid() && LeavesIn(t, leaves)
    requires WellDeclared(t, leaves)
    ensures Derive(t, leaves).Success?
    decreases |leaves|
  {
    if leaves != [] {
      var prefix := leaves[..|leaves| - 1];
      assert forall i :: 0 <= i < |prefix| ==> prefix[i] == leaves[i];
      assert WellDeclared(t, prefix);
      WellDeclaredDeriveSucceeds(t, prefix);
      DeriveInventsNothing(t, prefix);
    }
  }

  /** Derivation succeeds exactly when the declarations are free of defects. */
  lemma DeriveSucceedsIff(t: Tree, leaves: seq<nat>)
    requires t.Valid() && LeavesIn(t, leaves)
    ensures Derive(t, leaves).Success? <==> WellDeclared(t, leaves)
  {
    if Derive(t, leaves).Success? {
      DeriveSuccessIsWellDeclared(t, leaves);
    } else if WellDeclared(t, leaves) {
      WellDeclaredDeriveSucceeds(t, leaves);
    }
  }

  /**
   * A failed derivation reports a real defect: a missing alias on the chain of
   * some leaf, or a leaf whose shorthand is already taken, by the hand-written
   * entry or by an earlier leaf, whose path the defect carries.
   */
  /** A failed insertion names its leaf's defect, or the key it found taken and the path there. */
  lemma AddLeafFailureNamesDefect(t: Tree, m: Table, n: nat)
    requires t.Valid() && n < |t.nodes| && AddLeaf(t, m, n).Failure?
    ensures var d := AddLeaf(t, m, n).error;
      d.MissingAlias? ==> LeafShorthand(t, n) == Failure(d)
    ensures var d := AddLeaf(t, m, n).error;
      d.DuplicateShorthand? ==>
        && d.leaf == n && Contribution(t, n) == Some(Entry(d.shorthand, Contribution(t, n).value.path))
        && d.shorthand in m && d.other == m[d.shorthand]
  {
  }

  lemma {:induction false} DeriveFailureNamesDefect(t: Tree, leaves: seq<nat>)
    requires t.Valid() && LeavesIn(t, leaves)
    requires Derive(t, leaves).Failure?
    ensures var d := Derive(t, leaves).error;
      d.MissingAlias? ==>
        exists i :: 0 <= i < |leaves| && LeafShorthand(t, leaves[i]) == Failure(d)
    ensures var d := Derive(t, leaves).error;
      d.DuplicateShorthand? ==>
        exists i :: 0 <= i < |leaves| && leaves[i] == d.leaf
          && Contribution(t, leaves[i]).Some? && Contribution(t, leaves[i]).value.shorthand == d.shorthand
          && ((d.shorthand == SeedKey && d.other == SeedPath)
              || exists j :: 0 <= j < i && Contribution(t, leaves[j]) == Some(Entry(d.shorthand, d.other)))
    decreases |leaves|
  {
    var prefix := leaves[..|leaves| - 1];
    var last := |leaves| - 1;
    assert forall i :: 0 <= i < |prefix| ==> prefix[i] == leaves[i];
    if Derive(t, prefix).Failure? {
      DeriveFailureNamesDefect(t, prefix);
    } else {
      var m := Derive(t, prefix).value;
      var n := leaves[last];
      assert Derive(t, leaves) == AddLeaf(t, m, n);
      AddLeafFailureNamesDefect(t, m, n);
      var d := Derive(t, leaves).error;
      if d.MissingAlias? {
        assert LeafShorthand(t, leaves[last]) == Failure(d);
      } else if d.shorthand != SeedKey {
        DeriveInventsNothing(t, prefix);
        var j :| 0 <= j < |prefix| && Contribution(t, prefix[j]) == Some(Entry(d.shorthand, m[d.shorthand]));
        assert leaves[last] == d.leaf && Contribution(t, leaves[j]) == Some(Entry(d.shorthand, d.other));
      } else {
        DeriveKeepsSeed(t, prefix);
        assert leaves[last] == d.leaf && d.other == SeedPath;
      }
    }
  }

  /**
   * Every leaf that qualifies for a shorthand (a command with an alias under a
   * command parent) has it in a successfully derived table, keyed by the
   * concatenation of its root-to-leaf path.
   */
  lemma DeriveCoversQualifyingLeaf(t: Tree, leaves: seq<nat>, i: nat)
    requires t.Valid() && LeavesIn(t, leaves)
    requires Derive(t, leaves).Success?
    requires i < |leaves| && t.IsCommand(Some(leaves[i])) && |t.nodes[leaves[i]].aliases| > 0
    requires t.IsCommand(t.nodes[leaves[i]].parent)
    ensures Contribution(t, leaves[i]).Some?
    ensures Concat(Contribution(t, leaves[i]).value.path) in Derive(t, leaves).value
    ensures Derive(t, leaves).value[Concat(Contribution(t, leaves[i]).value.path)] == Contribution(t, leaves[i]).value.path
  {
    DeriveRecordsContributions(t, leaves);
    LeafShorthandFailsIff(t, leaves[i]);
    LeafContributesIff(t, leaves[i]);
  }
}
