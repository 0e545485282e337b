# gs shorthand aliases, modelled in Dafny

`gs` (git-spice) is a command line tool for stacking Git branches. At startup it
derives *shorthands* from its command tree: for every leaf command, the first
alias of each command above it, root first, joined together (`branch (b) >
create (c)` gives `bc`). One shorthand is written by hand: `can` expands to
`commit amend --no-edit`. Before parsing, and again before shell completion,
the first argument is replaced by the fragments of its shorthand, if it is one.

This project models that machinery:

- `wrappers.dfy` (`Wrappers`): `Option` and `Result`; every `panic` of the
  deriver becomes a `Failure`.
- `command_tree.dfy` (`CommandTree`): kong's command model as a flat sequence
  of nodes, each with a kind (`ApplicationNode`, `CommandNode`,
  `ArgumentNode`), a name, its aliases and a parent link given as the parent's
  position. A valid tree numbers every parent before its children. Every
  finite tree can be numbered that way, and it makes walking up the parent
  links terminate. `Ancestor` follows `k` parent links.
- `shorthands.dfy` (`Shorthands`): the deriver. `Fragments` is the parent
  walk. `LeafShorthand` is what one leaf contributes. `AddLeaf` is one loop
  iteration. `Derive` is the whole derivation as a fold over the leaves, and
  serves as the specification. `WalkFragments` and `DeriveShorthands` are the
  program's loops, proved equal to `Fragments` and `Derive`. The lemmas
  characterise the table: the hand-written entry is kept, every contribution
  is recorded, nothing else is in it, and derivation succeeds exactly when no
  alias is missing and no shorthand collides.
- `rewrite.dfy` (`Rewrite`): `slices.Replace`, the rewrite of the parsed
  arguments, and the completion hook's transform, which is proved to agree
  with it.
- `examples.dfy` (`GitSpiceExamples`): a tree after the help text's examples
  (`bc`, `cc`), plus two broken variants: a missing alias, and a shorthand
  that collides with `can`.

The table stores alias fragments, not command names (main.go:119,
main.go:133). So `gs bc -m x` is rewritten to `gs b c -m x`, and kong then
resolves `b c` to `branch create`. Saying that `bc` expands to
`branch create` describes the end effect after kong runs, not the rewrite
itself. The model follows the code. The code also skips leaves that are not
command nodes (main.go:110). Its walk stops at the first node that is not a
command node and does not skip over such nodes (main.go:115). The model
follows the code in both cases.

## Model

| member | source | states |
|---|---|---|
| `CommandTree.Ancestor` | main.go:115 | following parent links stays inside the tree and only moves to earlier nodes |
| `Shorthands.Reverse` | main.go:126 | the result has the input's length and holds element `k` of the input at position `len-1-k` |
| `Shorthands.Concat` | main.go:127 | joining no fragments gives the empty string, and every fragment fits inside the joined string |
| `Shorthands.ConcatAppend` | main.go:127 | joining two fragment lists one after the other is joining each and concatenating the results |
| `Shorthands.ConcatCons` | main.go:127 | the joined string starts with the first fragment and continues with the join of the rest |
| `Shorthands.Fragments` | main.go:114-120 | the parent walk can fail only with a missing alias, naming a command node of the tree that has no aliases |
| `Shorthands.LeafShorthand` | main.go:110-127 | only a command leaf with an alias can fail, and then with its walk's defect; a contributed entry has at least two fragments, its key is their concatenation, and its last fragment is the leaf's own first alias |
| `Shorthands.AddLeaf` | main.go:128-133 | a successful insertion keeps every existing entry unchanged; it adds the leaf's entry only under a key not yet present, and adds nothing for a leaf that contributes nothing; a missing alias is the leaf's own defect and a duplicate names this leaf |
| `Shorthands.Derive` | main.go:109-133 | the hand-written table alone never fails; a missing alias names a command node without aliases, and a duplicate names one of the visited leaves |
| `Shorthands.WalkFragments` | main.go:114-120 | the collecting loop returns exactly the walk's fragments, or the walk's missing-alias defect |
| `Shorthands.DeriveShorthands` | main.go:101-134 | the startup loop's table, or the defect it panics on, is exactly the fold `Derive` over the leaves in order |
| `Shorthands.DeriveAfterFailure` | main.go:116-130 | once a defect is met, later leaves do not change the outcome: the first defect is reported |
| `Shorthands.FragmentsAreFirstAliases` | main.go:115-120 | fragment `k` is the first alias of the `k`-th node up from the leaf, and that node is a command node |
| `Shorthands.FragmentsStopAtNonCommand` | main.go:115 | the node just above the last collected one is nil or not a command node |
| `Shorthands.FragmentsFailOnMissingAlias` | main.go:116-118 | if the walk reaches, through command nodes only, a command node without alias, the walk fails |
| `Shorthands.FragmentsFailureNamesNode` | main.go:115-118 | a failed walk names the nearest command node without alias: it is reached through command nodes only, and every node below it on the way up has an alias |
| `Shorthands.LeafPathIsRootToLeafAliases` | main.go:114-127 | an entry's path is the first alias of each consecutive command node above and including the leaf, from the outermost down to the leaf; the node above the outermost is nil or not a command |
| `Shorthands.LeafShorthandFailsIff` | main.go:109-124 | a leaf fails iff it is a command with an alias and some command node on its chain has no alias; non-command and alias-less leaves never fail |
| `Shorthands.LeafContributesIff` | main.go:110-124 | a leaf contributes an entry iff it is a command with an alias, its parent is a command, and no command node on its chain lacks an alias |
| `Shorthands.DeriveKeepsSeed` | main.go:101-133 | after a successful derivation, `can` still maps to `commit amend --no-edit` |
| `Shorthands.DeriveRecordsContributions` | main.go:109-133 | after a successful derivation, every leaf was free of defects and every contributed entry is in the table with its own path |
| `Shorthands.DeriveCoversQualifyingLeaf` | main.go:110-133 | in a successfully derived table, every leaf that is a command with an alias under a command parent has its entry, keyed by the join of its path |
| `Shorthands.DeriveInventsNothing` | main.go:101-133 | every key of a derived table is `can` or a shorthand some leaf contributed, mapped to that leaf's path |
| `Shorthands.DeriveSuccessIsWellDeclared` | main.go:109-133 | a successful derivation implies no missing alias, no contribution equal to `can`, and no two leaves with the same shorthand |
| `Shorthands.WellDeclaredDeriveSucceeds` | main.go:109-133 | declarations with none of those defects derive successfully |
| `Shorthands.DeriveSucceedsIff` | main.go:109-133 | derivation succeeds if and only if the declarations are free of both defects |
| `Shorthands.AddLeafFailureNamesDefect` | main.go:116-130 | a failed loop iteration reports either its leaf's missing alias, or its own leaf, a shorthand that leaf contributes, and the path already stored under it |
| `Shorthands.DeriveFailureNamesDefect` | main.go:116-130 | a missing-alias failure comes from some leaf's walk; a duplicate names a leaf that contributes the shorthand, and the path already holding it, either the hand-written one or an earlier leaf's |
| `Rewrite.Replace` | main.go:139 | elements before `i` are kept, `v` is placed at `i`, and elements from `j` on follow it; the length changes by `len(v) - (j - i)` |
| `Rewrite.RewriteArgs` | main.go:136-141 | with no arguments, or a first argument that is not a key, the arguments pass unchanged; otherwise the result is the key's fragments followed by the other arguments, of length `len(fragments) + len(args) - 1` |
| `Rewrite.TransformCompleted` | main.go:144-151 | with no arguments, or a first argument that is not a key, the completion arguments pass unchanged; otherwise they become the key's fragments followed by the other arguments |
| `Rewrite.CompletionAgreesWithExecution` | main.go:144-151 | the completion transform gives exactly the result of the execution rewrite on every argument list |
| `Rewrite.ExpandDerivedShorthand` | main.go:133-141 | with a derived table, a leaf's shorthand typed first expands to that leaf's root-to-leaf alias path followed by the other arguments |
| `Rewrite.ExpandSeed` | main.go:101-141 | with a derived table, `can` typed first expands to `commit amend --no-edit` followed by the other arguments |
| `GitSpiceExamples.SingleWordAndUnaliased` | main.go:110-124 | a top-level leaf (one fragment) and a leaf without alias add nothing to the table |
| `GitSpiceExamples.GsShorthands` | main.go:74-79 | the example tree derives exactly `can`, `bc` = `b c` and `cc` = `c c` |
| `GitSpiceExamples.ExpandBranchCreate` | main.go:76-77 | `bc -m x` is rewritten to `b c -m x` |
| `GitSpiceExamples.MissingAliasRejected` | main.go:116-118 | stripping `branch` of its alias makes startup fail on that node |
| `GitSpiceExamples.SeedCollisionRejected` | main.go:128-130 | a command `commit > an` derives `can` and makes startup fail, reporting the hand-written path |

## Left out

- The object access layer (`ReadObject`, `WriteObject`, `Type.String` in internal/git/object.go): they only build arguments for a `git` subprocess. The subprocess runner is not part of this model.
- Logger and style setup, signal handling and context cancellation (main.go:28-52): presentation and concurrency.
- kong parser construction, the help printer and help-flag tweaks (main.go:55-99), `komplete.Run` and its predictors, `parser.Parse` and `kctx.Run` (main.go:143-165): calls into a library that is not part of this model. Only the completion hook's rewrite is kept.
- kong's `Leaves(false)` is a library call: the leaves and their order are a parameter of `Derive` and `DeriveShorthands`.
- `os.Args[1:]` (main.go:136) is taken as given: `RewriteArgs` receives the arguments after the program name.
- `AfterApply`, `globalOptions` and `mainCmd` (main.go:168-226): binding and declarations. The subcommands of `branch`, `commit` and the other groups are not in the source shown, so the example tree uses only the help text's `branch create` and `commit create`.
- The unchecked conflict between a shorthand and other aliases (the TODO at main.go:131) is not implemented in the source and not modelled.
- `Shorthands.DeriveShorthands`: `slices.Reverse` reverses the local fragment slice in place. The model reverses a sequence value instead, which is observably the same because nothing else holds that slice.
- `Rewrite.RewriteArgs`: `slices.Replace` may write into the backing array of `os.Args` or of the completion arguments. The model returns a new sequence, and does not capture that aliasing, which nothing later observes.
- Panic messages are reduced to the data they print: the node for a missing alias; the shorthand, the leaf and the other path for a duplicate.
