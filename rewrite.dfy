/**
 * The argument rewriter of `gs`: when the first argument is a shorthand, it is
 * replaced by the fragments the table maps it to, and every later argument is
 * kept.  The program applies the rule twice, to the arguments it parses and,
 * in the completion hook, to the arguments it completes; both are modelled
 * and proved to agree.
 */
module Rewrite {
  import opened Wrappers
  import opened CommandTree
  import opened Shorthands

  /** `s` with the elements at [i, j) replaced by `v` (slices.Replace, which panics unless i <= j <= len(s)). */
  function Replace<T>(s: seq<T>, i: nat, j: nat, v: seq<T>): (r: seq<T>)
    requires i <= j <= |s|
    ensures |r| == |s| - (j - i) + |v|
    ensures forall k :: 0 <= k < i ==> r[k] == s[k]
    ensures forall k :: 0 <= k < |v| ==> r[i + k] == v[k]
    ensures forall k :: j <= k < |s| ==> r[k - j + i + |v|] == s[k]
  {
    s[..i] + v + s[j..]
  }

  /** The arguments the program parses, given those after the program name. */
  function RewriteArgs(shorthands: Table, args: seq<string>): (r: seq<string>)
    ensures |args| == 0 || args[0] !in shorthands ==> r == args
    ensures |args| > 0 && args[0] in shorthands ==>
      && |r| == |shorthands[args[0]]| + |args| - 1
      && r[..|shorthands[args[0]]|] == shorthands[args[0]]
      && r[|shorthands[args[0]]|..] == args[1..]
  {
    if |args| > 0 && args[0] in shorthands then
      var r := Replace(args, 0, 1, shorthands[args[0]]);
      assert r[..|shorthands[args[0]]|] == shorthands[args[0]];
      assert r[|shorthands[args[0]]|..] == args[1..];
      r
    else args
  }

  /** The completion hook's transform of the arguments typed so far. */
  function TransformCompleted(shorthands: Table, args: seq<string>): (r: seq<string>)
    ensures |args| == 0 || args[0] !in shorthands ==> r == args
    ensures |args| > 0 && args[0] in shorthands ==>
      && |r| == |shorthands[args[0]]| + |args| - 1
      && r[..|shorthands[args[0]]|] == shorthands[args[0]]
      && r[|shorthands[args[0]]|..] == args[1..]
  {
    if |args| == 0 then args
    else if args[0] !in shorthands then args
    else
      var path := shorthands[args[0]];
      var r := Replace(args, 0, 1, path);
      assert r[..|path|] == path && r[|path|..] == args[1..];
      r
  }

  /** Completion expands exactly as execution does, so a shorthand completes as its full path would. */
  lemma CompletionAgreesWithExecution(shorthands: Table, args: seq<string>)
    ensures TransformCompleted(shorthands, args) == RewriteArgs(shorthands, args)
  {
  }

  /**
   * With a derived table, a leaf's shorthand typed first expands to the first
   * aliases of its command chain, root first, followed by the remaining arguments.
   */
  lemma ExpandDerivedShorthand(t: Tree, leaves: seq<nat>, i: nat, args: seq<string>)
    requires t.Valid() && LeavesIn(t, leaves)
    requires Derive(t, leaves).Success?
    requires i < |leaves| && Contribution(t, leaves[i]).Some?
    requires |args| > 0 && args[0] == Contribution(t, leaves[i]).value.shorthand
    ensures RewriteArgs(Derive(t, leaves).value, args) == Contribution(t, leaves[i]).value.path + args[1..]
    ensures |RewriteArgs(Derive(t, leaves).value, args)| >= |args| + 1
  {
    DeriveRecordsContributions(t, leaves);
    var path := Contribution(t, leaves[i]).value.path;
    var r := RewriteArgs(Derive(t, leaves).value, args);
    assert r == r[..|path|] + r[|path|..];
  }

  /** The hand-written shorthand expands to `commit amend --no-edit` whatever the tree. */
  lemma ExpandSeed(t: Tree, leaves: seq<nat>, args: seq<string>)
    requires t.Valid() && LeavesIn(t, leaves)
    requires Derive(t, leaves).Success?
    requires |args| > 0 && args[0] == SeedKey
    ensures RewriteArgs(Derive(t, leaves).value, args) == ["commit", "amend", "--no-edit"] + args[1..]
  {
    var r := RewriteArgs(Derive(t, leaves).value, args);
    assert r == r[..3] + r[3..];
  }
}
