/**
 * A small instance of the `gs` command model, after the shorthands the
 * top-level help advertises ("gs bc => gs branch create", "gs cc => gs commit
 * create"), and two broken variants that startup rejects.
 *
 * The lemmas are stated for any valid tree that holds the listed nodes at the
 * listed positions (HasGsCommands, HasBranchAlias); ConcreteTrees shows that
 * the constant trees below meet those hypotheses, so each lemma holds of them.
 */
module GitSpiceExamples {
  import opened Wrappers
  import opened CommandTree
  import opened Shorthands
  import opened Rewrite

  function Cmd(name: string, aliases: seq<string>, parent: nat): Node {
    Node(CommandNode, name, aliases, Some(parent))
  }

  const Root: Node := Node(ApplicationNode, "gs", [], None)

  /** gs > branch (b) > create (c); gs > commit (c) > create (c); gs > up (u); gs > trunk. */
  const Commands: Tree := Tree([
    Root,
    Cmd("branch", ["b"], 0), Cmd("create", ["c"], 1),
    Cmd("commit", ["c"], 0), Cmd("create", ["c"], 3),
    Cmd("up", ["u"], 0),
    Cmd("trunk", [], 0)
  ])
  const CommandLeaves: seq<nat> := [2, 4, 5, 6]

  /** The same tree with an extra command `commit (c) > an (an)`. */
  const Clashing: Tree := Tree(Commands.nodes + [Cmd("an", ["an"], 3)])

  /** The same tree with the `branch` group stripped of its alias. */
  const Unaliased: Tree := Tree(Commands.nodes[1 := Cmd("branch", [], 0)])

  /** The root and the four commands shared by the trees above. */
  predicate HasGsCommands(t: Tree) {
    && |t.nodes| >= 7
    && t.nodes[0] == Root
    && t.nodes[2] == Cmd("create", ["c"], 1)
    && t.nodes[3] == Cmd("commit", ["c"], 0) && t.nodes[4] == Cmd("create", ["c"], 3)
    && t.nodes[5] == Cmd("up", ["u"], 0) && t.nodes[6] == Cmd("trunk", [], 0)
  }

  /** ... and `branch` with its alias. */
  predicate HasBranchAlias(t: Tree) {
    HasGsCommands(t) && t.nodes[1] == Cmd("branch", ["b"], 0)
  }

  /** A command with alias `a` right under the root. */
  lemma TopLevel(t: Tree, n: nat, a: string)
    requires t.Valid() && n < |t.nodes| && t.nodes[n] == Cmd(t.nodes[n].name, [a], 0)
    requires t.nodes[0] == Root
    ensures Fragments(t, Some(n)) == Success([a])
  {
    assert Fragments(t, Some(0)) == Success([]);
    assert [a] + [] == [a];
  }

  /** A command with alias `a` under a top-level command with alias `b`: its shorthand is b + a. */
  lemma SecondLevel(t: Tree, n: nat, a: string, p: nat, b: string)
    requires t.Valid() && n < |t.nodes| && p < |t.nodes|
    requires t.nodes[n] == Cmd(t.nodes[n].name, [a], p)
    requires t.nodes[p] == Cmd(t.nodes[p].name, [b], 0)
    requires t.nodes[0] == Root
    ensures LeafShorthand(t, n) == Success(Some(Entry(b + a, [b, a])))
  {
    TopLevel(t, p, b);
    assert [a] + [b] == [a, b];
    assert Fragments(t, Some(n)) == Success([a, b]);
    assert Reverse([a, b]) == [b, a] by {
      assert [a, b][..1] == [a];
      assert [a][..0] == [];
    }
    assert Concat([b, a]) == b + a by {
      assert [b, a][..1] == [b];
      assert [b][..0] == [];
      assert "" + b == b;
      assert Concat([b]) == Concat([]) + b;
      assert Concat([b, a]) == Concat([b]) + a;
    }
  }

  /** Derivation over `leaves` followed by `n` is one more loop iteration. */
  lemma DeriveSnoc(t: Tree, leaves: seq<nat>, n: nat)
    requires t.Valid() && LeavesIn(t, leaves) && n < |t.nodes|
    requires Derive(t, leaves).Success?
    ensures LeavesIn(t, leaves + [n])
    ensures Derive(t, leaves + [n]) == AddLeaf(t, Derive(t, leaves).value, n)
  {
    assert (leaves + [n])[..|leaves|] == leaves;
  }

  /** After a successful prefix, a leaf with a fresh shorthand adds exactly its entry. */
  lemma AddStep(t: Tree, prefix: seq<nat>, m: Table, n: nat, e: Entry)
    requires t.Valid() && LeavesIn(t, prefix) && n < |t.nodes|
    requires Derive(t, prefix) == Success(m) && LeafShorthand(t, n) == Success(Some(e))
    requires e.shorthand !in m
    ensures LeavesIn(t, prefix + [n])
    ensures Derive(t, prefix + [n]) == Success(m[e.shorthand := e.path])
  {
    DeriveSnoc(t, prefix, n);
  }

  /** After a successful prefix, a leaf that contributes nothing leaves the table as it is. */
  lemma SkipStep(t: Tree, prefix: seq<nat>, m: Table, n: nat)
    requires t.Valid() && LeavesIn(t, prefix) && n < |t.nodes|
    requires Derive(t, prefix) == Success(m) && LeafShorthand(t, n) == Success(None)
    ensures LeavesIn(t, prefix + [n])
    ensures Derive(t, prefix + [n]) == Success(m)
  {
    DeriveSnoc(t, prefix, n);
  }

  /** After a successful prefix, a leaf whose shorthand is already taken fails on it. */
  lemma CollisionStep(t: Tree, prefix: seq<nat>, m: Table, n: nat, e: Entry)
    requires t.Valid() && LeavesIn(t, prefix) && n < |t.nodes|
    requires Derive(t, prefix) == Success(m) && LeafShorthand(t, n) == Success(Some(e))
    requires e.shorthand in m
    ensures LeavesIn(t, prefix + [n])
    ensures Derive(t, prefix + [n]) == Failure(DuplicateShorthand(e.shorthand, n, m[e.shorthand]))
  {
    DeriveSnoc(t, prefix, n);
  }

  /** branch (b) > create (c) contributes "bc". */
  lemma BranchCreate(t: Tree)
    requires t.Valid() && HasBranchAlias(t)
    ensures LeafShorthand(t, 2) == Success(Some(Entry("bc", ["b", "c"])))
  {
    SecondLevel(t, 2, "c", 1, "b");
    assert "b" + "c" == "bc";
  }

  /** commit (c) > create (c) contributes "cc". */
  lemma CommitCreate(t: Tree)
    requires t.Valid() && HasGsCommands(t)
    ensures LeafShorthand(t, 4) == Success(Some(Entry("cc", ["c", "c"])))
  {
    SecondLevel(t, 4, "c", 3, "c");
    assert "c" + "c" == "cc";
  }

  /** `up` is a single word and `trunk` has no alias: both contribute nothing. */
  lemma UpAndTrunk(t: Tree)
    requires t.Valid() && HasGsCommands(t)
    ensures LeafShorthand(t, 5) == Success(None)
    ensures LeafShorthand(t, 6) == Success(None)
  {
    TopLevel(t, 5, "u");
  }

  /** `up` and `trunk`, after any successful prefix, add nothing. */
  lemma SingleWordAndUnaliased(t: Tree, prefix: seq<nat>)
    requires t.Valid() && HasGsCommands(t) && LeavesIn(t, prefix) && Derive(t, prefix).Success?
    ensures LeavesIn(t, prefix + [5, 6])
    ensures Derive(t, prefix + [5, 6]) == Derive(t, prefix)
  {
    UpAndTrunk(t);
    TwoSkips(t, prefix, Derive(t, prefix).value, 5, 6);
  }

  /** The seed with the two derived entries added, written out. */
  lemma GsTable()
    ensures Seed["bc" := ["b", "c"]]["cc" := ["c", "c"]]
      == map["can" := ["commit", "amend", "--no-edit"], "bc" := ["b", "c"], "cc" := ["c", "c"]]
  {
  }

  /** Two leaves with distinct fresh shorthands, one after the other, from the seed. */
  lemma TwoEntries(t: Tree, a: nat, b: nat, ea: Entry, eb: Entry)
    requires t.Valid() && a < |t.nodes| && b < |t.nodes|
    requires LeafShorthand(t, a) == Success(Some(ea)) && LeafShorthand(t, b) == Success(Some(eb))
    requires ea.shorthand !in Seed && eb.shorthand !in Seed[ea.shorthand := ea.path]
    ensures LeavesIn(t, [a, b])
    ensures Derive(t, [a, b]) == Success(Seed[ea.shorthand := ea.path][eb.shorthand := eb.path])
  {
    AddStep(t, [], Seed, a, ea);
    assert [] + [a] == [a];
    AddStep(t, [a], Seed[ea.shorthand := ea.path], b, eb);
    assert [a] + [b] == [a, b];
  }

  /** Two leaves that contribute nothing, after any successful prefix. */
  lemma TwoSkips(t: Tree, prefix: seq<nat>, m: Table, a: nat, b: nat)
    requires t.Valid() && LeavesIn(t, prefix) && a < |t.nodes| && b < |t.nodes|
    requires Derive(t, prefix) == Success(m)
    requires LeafShorthand(t, a) == Success(None) && LeafShorthand(t, b) == Success(None)
    ensures LeavesIn(t, prefix + [a, b])
    ensures Derive(t, prefix + [a, b]) == Success(m)
  {
    SkipStep(t, prefix, m, a);
    SkipStep(t, prefix + [a], m, b);
    assert prefix + [a] + [b] == prefix + [a, b];
  }

  /** The table the leaves [2, 4] derive from their contributions. */
  lemma DeriveGsEntries(t: Tree)
    requires t.Valid() && |t.nodes| >= 5
    requires LeafShorthand(t, 2) == Success(Some(Entry("bc", ["b", "c"])))
    requires LeafShorthand(t, 4) == Success(Some(Entry("cc", ["c", "c"])))
    ensures LeavesIn(t, [2, 4])
    ensures Derive(t, [2, 4]) == Success(Seed["bc" := ["b", "c"]]["cc" := ["c", "c"]])
  {
    assert "bc" !in Seed && "cc" !in Seed["bc" := ["b", "c"]];
    TwoEntries(t, 2, 4, Entry("bc", ["b", "c"]), Entry("cc", ["c", "c"]));
  }

  /** Leaves 5 and 6, contributing nothing, keep the table of [2, 4]. */
  lemma SkipUpAndTrunk(t: Tree, m: Table)
    requires t.Valid() && |t.nodes| >= 7 && LeavesIn(t, [2, 4]) && Derive(t, [2, 4]) == Success(m)
    requires LeafShorthand(t, 5) == Success(None) && LeafShorthand(t, 6) == Success(None)
    ensures LeavesIn(t, CommandLeaves) && Derive(t, CommandLeaves) == Success(m)
  {
    TwoSkips(t, [2, 4], m, 5, 6);
    assert [2, 4] + [5, 6] == CommandLeaves;
  }

  /** The table the leaves [2, 4, 5, 6] derive from their contributions. */
  lemma DeriveGsLeaves(t: Tree)
    requires t.Valid() && |t.nodes| >= 7
    requires LeafShorthand(t, 2) == Success(Some(Entry("bc", ["b", "c"])))
    requires LeafShorthand(t, 4) == Success(Some(Entry("cc", ["c", "c"])))
    requires LeafShorthand(t, 5) == Success(None) && LeafShorthand(t, 6) == Success(None)
    ensures LeavesIn(t, CommandLeaves)
    ensures Derive(t, CommandLeaves)
      == Success(map["can" := ["commit", "amend", "--no-edit"], "bc" := ["b", "c"], "cc" := ["c", "c"]])
  {
    DeriveGsEntries(t);
    SkipUpAndTrunk(t, Seed["bc" := ["b", "c"]]["cc" := ["c", "c"]]);
    GsTable();
  }

  /** Two-level leaves get shorthands; `up` is a single word and `trunk` has no alias. */
  lemma GsShorthands(t: Tree)
    requires t.Valid() && HasBranchAlias(t)
    ensures LeavesIn(t, CommandLeaves)
    ensures Derive(t, CommandLeaves)
      == Success(map["can" := ["commit", "amend", "--no-edit"], "bc" := ["b", "c"], "cc" := ["c", "c"]])
  {
    BranchCreate(t);
    CommitCreate(t);
    UpAndTrunk(t);
    DeriveGsLeaves(t);
  }

  /** `gs bc -m x` runs as `gs b c -m x`, which the parser reads as `gs branch create -m x`. */
  lemma ExpandBranchCreate(t: Tree)
    requires t.Valid() && HasBranchAlias(t)
    ensures LeavesIn(t, CommandLeaves) && Derive(t, CommandLeaves).Success?
    ensures RewriteArgs(Derive(t, CommandLeaves).value, ["bc", "-m", "x"]) == ["b", "c", "-m", "x"]
  {
    GsShorthands(t);
    var r := RewriteArgs(Derive(t, CommandLeaves).value, ["bc", "-m", "x"]);
    assert r == r[..2] + r[2..];
  }

  /** Without an alias on `branch`, startup fails when it walks up from `create`. */
  lemma MissingAliasRejected(t: Tree)
    requires t.Valid() && HasGsCommands(t) && t.nodes[1] == Cmd("branch", [], 0)
    ensures LeavesIn(t, CommandLeaves)
    ensures Derive(t, CommandLeaves) == Failure(MissingAlias(1))
  {
    assert Fragments(t, Some(2)) == Failure(MissingAlias(1));
    assert CommandLeaves[..1] == [2] && [2][..0] == [];
    DeriveAfterFailure(t, CommandLeaves, 1);
  }

  /** commit (c) > an (an) contributes "can". */
  lemma CommitAn(t: Tree)
    requires t.Valid() && HasGsCommands(t) && |t.nodes| >= 8 && t.nodes[7] == Cmd("an", ["an"], 3)
    ensures LeafShorthand(t, 7) == Success(Some(Entry("can", ["c", "an"])))
  {
    SecondLevel(t, 7, "an", 3, "c");
    assert "c" + "an" == "can";
  }

  /** `commit (c) > an (an)` would derive "can", the hand-written shorthand: startup fails on it. */
  lemma SeedCollisionRejected(t: Tree)
    requires t.Valid() && HasBranchAlias(t) && |t.nodes| >= 8 && t.nodes[7] == Cmd("an", ["an"], 3)
    ensures LeavesIn(t, [2, 7])
    ensures Derive(t, [2, 7]) == Failure(DuplicateShorthand("can", 7, ["commit", "amend", "--no-edit"]))
  {
    var m := Seed["bc" := ["b", "c"]];
    BranchCreate(t);
    CommitAn(t);
    GsTable();
    AddStep(t, [], Seed, 2, Entry("bc", ["b", "c"]));
    assert [] + [2] == [2];
    CollisionStep(t, [2], m, 7, Entry("can", ["c", "an"]));
    assert [2] + [7] == [2, 7];
  }

  /** The three concrete trees meet the hypotheses of the lemmas above. */
  lemma ConcreteTrees()
    ensures Commands.Valid() && HasBranchAlias(Commands)
    ensures Clashing.Valid() && HasBranchAlias(Clashing) && |Clashing.nodes| >= 8
    ensures Clashing.nodes[7] == Cmd("an", ["an"], 3)
    ensures Unaliased.Valid() && HasGsCommands(Unaliased) && Unaliased.nodes[1] == Cmd("branch", [], 0)
  {
  }
}
