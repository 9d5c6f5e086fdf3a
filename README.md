# git-dht: a Dafny model of the start-up publication

git-dht announces local git repositories on a Kademlia-style DHT. When a
node starts, it does the following:

- It reads a per-node INI file. Every section other than `global` names a
  repository, with a `path` and a `branches` list of glob patterns.
- For each repository whose path exists, it selects the local branches that
  the patterns want.
- For each selected branch it publishes:
  - a *head* entry `name:ref-with-slashes-as-colons:head`, valued by the
    head commit id;
  - one *ancestor* entry `name:ref...:<sha>` for every commit it reaches by
    walking the parent links from the head, also valued by the head commit.
- After a repository's branches, it publishes a *summary* entry, keyed by
  the repository name and valued by the comma-joined selected refs.

This project models that pass, together with the small string layer it
rests on and the line filter through which the configuration files are
read. The modules are:

| module | what it models |
|---|---|
| `Text` | Python 2 byte-string `lstrip`, `rstrip`, `strip`, `split(sep)`, `sep.join` and `replace` |
| `FakeRead` | The `readline` rule that hides indentation from the INI parser |
| `Glob` | `fnmatch` restricted to `*`, `?` and literal characters |
| `Repo` | The view of a repository the pass uses: the enumerated ref names, a ref-to-commit map and a commit-to-parents map |
| `Keys` | The key scheme |
| `Selection` | The branch-list parsing and the nested selection loops (`SelectRefs` is a method with loops, specified by the function `Selected`) |
| `Startup` | The loop over configuration sections (`LoadRepos`, specified by `Loaded`) |
| `History` | The ancestor walk |
| `Publish` | The node, a class whose `published` field logs every `publishData(key, value)` call in order |
| `PublishFacts` | What the publication amounts to |

In `History`:

- The walk is `DfsOrder`, a function that follows the source's `while`
  loop step for step.
- It terminates under the lexicographic measure (commits not yet seen,
  length of the work list).
- It is related to an independent definition of "ancestor" by parent
  chains.

In `Publish`:

- The walk is also written as the imperative loop of `GitDht.PublishRef`.
- Its invariant ties the loop state to `DfsOrder`.

## Model

| member | source | states |
|---|---|---|
| Text.LStrip | git-dht.py:49 | `lstrip` never lengthens the line |
| Text.LStripShape | git-dht.py:49 | `lstrip` leaves a suffix of the input. What it drops is all whitespace, and what it leaves does not start with whitespace |
| Text.RStrip | git-dht.py:127 | `rstrip` never lengthens the string |
| Text.RStripShape | git-dht.py:127 | `rstrip` leaves a prefix. What it drops is all whitespace, and what it leaves does not end with whitespace |
| Text.Strip | git-dht.py:127 | `strip` never lengthens the string |
| Text.StripInfix | git-dht.py:127 | The stripped pattern is the infix of the piece between a whitespace prefix and a whitespace suffix |
| Text.StripEnds | git-dht.py:127 | A stripped pattern neither starts nor ends with whitespace |
| Text.StripEmpty | git-dht.py:127 | Stripping gives "" exactly when the piece is all whitespace |
| Text.StripKeepsOut | git-dht.py:127 | Stripping introduces no character, so a comma-free piece stays comma-free |
| Text.Split | git-dht.py:126 | `split(',')` always yields at least one piece |
| Text.SplitPiecesFree | git-dht.py:126 | No piece of a split contains the separator |
| Text.SplitLength | git-dht.py:126 | A split has one more piece than the string has separators |
| Text.JoinSplit | git-dht.py:126 | Joining the pieces of a split with the separator gives back the string |
| Text.SplitAfterPiece | git-dht.py:126 | A separator-free prefix followed by a separator splits off as the first piece |
| Text.SplitNoSeparator | git-dht.py:126 | A separator-free string splits into itself alone |
| Text.SplitJoin | git-dht.py:83 | `','.join(xs).split(',') == xs` holds if and only if `xs` is non-empty and no element contains a comma |
| Text.SplitJoinNonEmpty | git-dht.py:83 | The "if" direction of the round trip |
| Text.Join | git-dht.py:83 | `sep.join(xs)`: the elements in order with one separator between neighbours; `[]` gives "" |
| Text.Replace | git-dht.py:68 | `s.replace(pat, rep)`: scanning left to right, each non-overlapping occurrence of `pat` is replaced by `rep` |
| Text.ReplaceChar | git-dht.py:68 | `ref.replace('/', ':')` keeps the length, turns every `/` into `:` and keeps every other character |
| Text.ReplaceAbsent | git-dht.py:131 | `replace` leaves a string without the pattern unchanged |
| Text.ReplaceSplice | git-dht.py:131 | When `pat` starts nowhere inside `a`, `replace` keeps `a`, replaces the occurrence that follows it and continues on the rest, so every non-overlapping occurrence is replaced |
| FakeRead.ReadLine | git-dht.py:47-53 | The line handed to the parser is a suffix of the raw line. An all-whitespace or empty line passes unchanged. Otherwise the result is non-empty, starts with a non-space, and only whitespace was dropped |
| FakeRead.ReadLineIdempotent | git-dht.py:47-53 | Filtering an already filtered line changes nothing |
| Glob.Matches | git-dht.py:132 | `fnmatch(name, pat)` for patterns of `*` (any run), `?` (any one character) and literal characters, matching the whole name case-sensitively |
| Glob.LiteralMatch | git-dht.py:132 | A pattern without wildcards matches exactly the name it spells |
| Glob.StarMatchesAll | git-dht.py:132 | `*` matches every name |
| Glob.PrefixMatch | git-dht.py:132 | `lit*` matches exactly the names that start with `lit` |
| Keys.KeyBaseLayout | git-dht.py:68 | The base key is the repository name, `:`, then the ref with each `/` turned into `:` and every other character kept |
| Keys.KeyBaseInjective | git-dht.py:68 | Colon-free repository and ref names never share a base key |
| Keys.AncestorKeysDistinct | git-dht.py:69-81 | Ancestor keys of different commits differ. An ancestor key of a 40-hex commit id is never the head key |
| Keys.KeyBase | git-dht.py:68 | The base key `repo_name:ref` with every `/` of the ref replaced by `:` |
| Keys.HeadKey | git-dht.py:69 | The head key: the base key followed by `:head` |
| Keys.AncestorKey | git-dht.py:81 | An ancestor key: the base key, `:`, then the commit id |
| Keys.SummaryKey | git-dht.py:83 | The summary key: the bare repository name |
| Keys.SummaryValue | git-dht.py:83 | The summary value: the selected refs joined with `,` in selection order |
| History.Unseen | git-dht.py:71 | The filtered candidate list is no longer than the candidates |
| History.UnseenMembers | git-dht.py:71-80 | The pushed list holds exactly the candidates that are not yet seen |
| History.UnseenInGraph | git-dht.py:78-80 | Pushing the unseen parents of a present commit keeps the work list inside a parent-closed graph |
| History.DfsExtends | git-dht.py:72-80 | The walk only ever appends to `seen` |
| History.DfsPopSeen | git-dht.py:73-75 | Popping an item already seen just drops it |
| History.DfsPopUnseen | git-dht.py:73-80 | Popping a new item appends it to `seen` and pushes its unseen parents in order |
| History.DfsOrder | git-dht.py:72-80 | The final `seen` list of the walk loop resumed from work list `tosee` and seen list `seen`: pop the last item, skip it if seen, otherwise append it to `seen` and push its parents not yet seen; terminates on (unseen commits, work-list length) |
| History.Walk | git-dht.py:70-80 | The ancestors published for a head, in publication order: the walk started with an empty seen list and the head's parents as work list |
| History.DfsInGraph | git-dht.py:72-80 | In a parent-closed graph the walk lists only commits of the graph |
| History.ChainStep | git-dht.py:78-80 | A parent of a reachable commit is reachable |
| History.DfsSound | git-dht.py:72-80 | Everything the walk adds is reachable from the initial work list |
| History.DfsComplete | git-dht.py:72-80 | If every parent of a seen commit is seen or waiting, the final list is closed under parents |
| History.DfsKeeps | git-dht.py:72-80 | Every seen or waiting commit ends up in the final list |
| History.DfsDistinct | git-dht.py:72-80 | The walk never lists a commit twice |
| History.ClosedHoldsReachable | git-dht.py:72-80 | A parent-closed list that holds the start of a chain holds its end |
| History.AncestorIsReachableFromParents | git-dht.py:71 | Starting from the head's parents reaches exactly the ancestors of the head |
| History.WalkInGraph | git-dht.py:70-80 | The walk from a present head lists only present commits |
| History.WalkDistinct | git-dht.py:70-80 | The walk from a head lists no commit twice |
| History.WalkIsAncestors | git-dht.py:70-80 | The walk lists each commit reachable from the head in one or more parent steps exactly once, and nothing else |
| History.WalkListsHeadOnlyOnCycle | git-dht.py:70-80 | The head is listed if and only if it lies on a cycle. It is never listed in an acyclic history |
| Selection.HeadBranches | git-dht.py:125 | The candidate list is no longer than the enumerated refs |
| Selection.HeadBranchesMembers | git-dht.py:125 | A ref is a candidate if and only if it is enumerated and starts with `refs/heads/` |
| Selection.HeadBranchesOfBranches | git-dht.py:125 | When every enumerated ref is a branch, the candidates are the refs in enumeration order |
| Selection.ParsePatterns | git-dht.py:126-127 | There is one pattern per comma-separated piece of the setting |
| Selection.StripAll | git-dht.py:127 | Stripping keeps the number of pieces |
| Selection.StripAllAt | git-dht.py:127 | Pattern `i` is piece `i` stripped |
| Selection.StripAllShape | git-dht.py:127 | Stripped comma-free pieces are comma-free and have no surrounding whitespace |
| Selection.ParsePatternsShape | git-dht.py:126-127 | No pattern contains a comma or starts or ends with whitespace |
| Selection.ParsePatternsJoin | git-dht.py:126-127 | For a setting without whitespace, re-joining the patterns with commas gives back the setting |
| Selection.PieceOfSpaceless | git-dht.py:126 | Pieces of a whitespace-free string are whitespace-free |
| Selection.ReflessOfBranch | git-dht.py:131 | Removing `refs/heads/` from `refs/heads/<name>` gives `<name>` when `<name>` does not repeat the prefix |
| Selection.ReflessRemovesEvery | git-dht.py:131 | `refs/heads/<x>refs/heads/<y>` loses both occurrences of `refs/heads/`, not only the leading one |
| Selection.NoPrefixStartsBefore | git-dht.py:131 | `refs/heads/` cannot start inside a name without it and run into a following `refs/heads/` |
| Selection.ShortNameHoldsNoPrefix | git-dht.py:131 | A name shorter than `refs/heads/` cannot contain it |
| Selection.Refless | git-dht.py:131 | The branch name with every occurrence of `refs/heads/` removed |
| Selection.Wanted | git-dht.py:132 | A pattern selects a branch when it matches the full name or the name with `refs/heads/` removed |
| Selection.Copies | git-dht.py:130-134 | A branch gets at most one copy per pattern |
| Selection.CopiesOnlyBranch | git-dht.py:130-134 | The inner loop appends nothing but the current branch |
| Selection.CopiesNonEmpty | git-dht.py:130-134 | A branch is appended at all if and only if some pattern matches its full or its shortened name |
| Selection.CopiesMultiset | git-dht.py:130-134 | Every appended copy is the branch |
| Selection.CopiesSnoc | git-dht.py:130-134 | One more pattern adds one more copy exactly when it wants the branch |
| Selection.AppendCopies | git-dht.py:130-134 | The inner loop appends the branch's copies to the selection so far |
| Selection.Selected | git-dht.py:128-134 | The selection: the candidates in order, each followed by one copy per pattern that wants it |
| Selection.SelectRefs | git-dht.py:125-134 | The nested loops compute the selection of the branches among the enumerated refs |
| Selection.SelectedSnoc | git-dht.py:129-134 | One more candidate adds its copies at the end |
| Selection.SelectedAppend | git-dht.py:129-134 | The selection keeps candidate order: selecting a concatenation concatenates the selections |
| Selection.SelectedMembership | git-dht.py:128-134 | A ref is selected if and only if it is a candidate and some pattern matches its full or its shortened name |
| Selection.SelectedMultiplicity | git-dht.py:128-134 | A ref occurs in the selection (its occurrences as a candidate) × (the number of patterns that want it) times |
| Selection.SelectedCountStep | git-dht.py:128-134 | How the last candidate changes the count of a ref in the selection and among the candidates |
| Selection.WantedByPrefixPattern | git-dht.py:131-132 | `lit*` wants `refs/heads/<short>` exactly when `lit` starts `<short>`, if `lit` does not start the full name |
| Selection.WantedByRelease | git-dht.py:131-132 | `release-*` wants `refs/heads/<short>`, for every short name that does not itself contain `refs/heads/`, exactly when the short name starts with `release-` |
| Selection.ReleaseWanted | git-dht.py:131-132 | `release-*` wants `release-1` but not `master` or `dev` |
| Selection.ReleasePatternExample | git-dht.py:125-134 | With master, release-1 and dev, `release-*` selects only `refs/heads/release-1` |
| Selection.SelectMiddleOfThree | git-dht.py:128-134 | One pattern that wants only the middle candidate selects only it |
| Selection.DuplicateSelectionExample | git-dht.py:129-134 | `master,*` selects `refs/heads/master` twice |
| Selection.SelectOneBranch | git-dht.py:129-134 | A branch wanted by two patterns is selected twice |
| Startup.LoadRepos | git-dht.py:120-141 | The section loop computes the loaded repositories in section order |
| Startup.BranchesSetting | git-dht.py:126 | The `branches` setting of a section, or `master` when it sets none (the default installed at git-dht.py:98) |
| Startup.EntryFor | git-dht.py:124-138 | The entry of a kept section: its name, the repository at its path and the selection of the repository's branches by the section's patterns |
| Startup.Loaded | git-dht.py:120-141 | The entries of the sections in order, skipping `global` and every section whose path holds no repository |
| Startup.LoadedSections | git-dht.py:120-141 | Every loaded entry comes from a non-`global` section whose path exists. Every such section yields its entry |
| Startup.LoadedSkipsGlobal | git-dht.py:121 | The `global` section never becomes a repository |
| Startup.EntryRefsAreBranches | git-dht.py:124-134 | Every selected ref is a local branch the repository enumerates |
| Startup.LoadedRefsAreBranches | git-dht.py:120-141 | Every selected ref of every loaded repository is one of its local branches |
| Publish.GitDht.constructor | git-dht.py:60-83 | Start-up logs exactly `Plan(repos)`: repository after repository, its refs' entries then its summary |
| Publish.GitDht.PublishAll | git-dht.py:64-83 | The repository loop appends `Plan(repos)` to the log |
| Publish.GitDht.PublishRepo | git-dht.py:65-83 | One repository appends its refs' entries and then its summary entry |
| Publish.GitDht.PublishRefs | git-dht.py:66-82 | The ref loop appends each selected ref's entries in selection order |
| Publish.GitDht.PublishData | git-dht.py:69 | Each `publishData` call appends its one (key, value) pair to the log |
| Publish.GitDht.PublishRef | git-dht.py:66-82 | One ref appends its head entry, then one ancestor entry per commit of `Walk(parents, head)` in walk order (the loop invariant ties the loop's `seen` and `tosee` to `Walk` through `DfsOrder`) |
| Publish.PushUnseen | git-dht.py:78-80 | The push loop appends, in order, the parents not yet seen |
| Publish.PlanStep | git-dht.py:64-83 | One more repository appends its entries after the earlier ones |
| Publish.RefsStep | git-dht.py:66-82 | One more ref appends its entries after the earlier ones |
| Publish.AncestorEntriesSnoc | git-dht.py:81-82 | One more seen commit appends its ancestor entry |
| Publish.AncestorEntries | git-dht.py:81-82 | One `(base:sha, head)` entry per walked commit, in walk order |
| Publish.RefEntries | git-dht.py:67-82 | What one ref publishes: its head entry `(head key, head)`, then the ancestor entries of `Walk(parents, head)` |
| Publish.RefsEntries | git-dht.py:66-82 | What the selected refs publish, ref after ref |
| Publish.RepoEntries | git-dht.py:65-83 | What a repository publishes: its refs' entries, then the summary entry |
| Publish.Plan | git-dht.py:64-83 | The whole start-up publication, repository after repository |
| PublishFacts.AncestorEntriesShape | git-dht.py:81-82 | Ancestor entry `i` is keyed by walk commit `i` and valued by the head |
| PublishFacts.RefKeysUnderBase | git-dht.py:68-81 | Every key a ref publishes is its base key, `:`, and more |
| PublishFacts.RefEntriesContents | git-dht.py:67-82 | A ref publishes its head entry first. It then publishes exactly one entry for each ancestor of the head and no other entry. Every value is the head commit. The head gets an ancestor entry only on a cycle |
| PublishFacts.RefEntriesOnlyAncestors | git-dht.py:71-82 | Every entry after the head entry is `(base:c, head)` for some ancestor `c` of the head |
| PublishFacts.RefAncestorMembers | git-dht.py:71-82 | A commit has an ancestor entry if and only if it is an ancestor of the head; in an acyclic history the head has none |
| PublishFacts.RefAncestorKeysDistinct | git-dht.py:72-82 | No two ancestor entries of a ref share a key |
| PublishFacts.RefKeysDistinct | git-dht.py:67-82 | With 40-hex commit ids, no two entries of a ref share a key |
| PublishFacts.RefsKeysUnderName | git-dht.py:66-82 | Every key a repository's refs publish is the repository name, `:`, and more |
| PublishFacts.KeysUnderAppend | git-dht.py:66-82 | Keys under a ref's base key stay under the repository name when appended |
| PublishFacts.RepoEntriesSummary | git-dht.py:83 | A repository's entries end with the summary `(name, ','.join(selected))`, and no earlier entry uses the bare name as key. The summary splits back into the selection if and only if the selection is non-empty and comma-free |
| PublishFacts.PlanHasSummaries | git-dht.py:64-83 | Every repository's summary entry is published |
| PublishFacts.EntryPublishable | git-dht.py:124-138 | A section over a well-formed repository yields an entry that can be published |
| PublishFacts.LoadedPublishable | git-dht.py:120-146 | Every repository loaded from well-formed repositories can be handed to the node |

## Left out

- The DHT node itself is not modelled. This covers `EntangledNode`, `joinNetwork`, `iterativeFindValue` and `printContacts`. Only the sequence of `publishData` arguments is kept, as the `published` log.
- `searchForValue` (git-dht.py:85-88) is not modelled. It is a SHA-1 digest of the key handed to the network lookup.
- The Twisted reactor, the `LoopingCall` timers and the search and contacts callbacks (git-dht.py:149-181) are not modelled. They are scheduling and printing only.
- Reading `~/.gitconfig` and the node's INI file through `RawConfigParser`, plus the command-line options and `os.environ`, are not modelled. They are I/O; the model starts from the parsed sections.
  - A section is a name, a `path` and an optional `branches` setting that defaults to `master`.
  - A path is in the domain of the `disk` map when it exists and holds a repository.
  - A missing `path` option, which makes `RawConfigParser` raise, is not modelled.
- Startup.Loaded: a path that exists but holds no git repository is not modelled. There, `Repo(repo_path)` (git-dht.py:124) raises and ends start-up; the `disk` map only knows paths that hold a repository, so this crash path cannot be expressed.
- The bootstrap lookup through `getaddrinfo` (git-dht.py:143-144) is not modelled. It is network I/O.
- The `print` calls are not modelled.
- dulwich `Repo` internals are not modelled. A repository is its enumerated ref names, a ref-to-commit map and a commit-to-parents map.
- git-dht.js is not part of this model. It is a Node.js variant whose walk only logs commit ids and publishes nothing.
- Glob.Matches: `fnmatch` character classes `[...]` are matched as literal characters, and the lemmas about literals exclude `[`.
- Startup.Loaded: the Python dict `repos` iterates in an arbitrary order; the model publishes in section order. Section names are unique in an INI file, so no entry overwrites another.
- Publish.GitDht.PublishRef: requires the history to be closed under parents (`Repository.Valid`). In the source, a missing commit object makes `repo[sha]` raise and aborts the whole start-up. That crash path is not modelled.
- History.DfsOrder and History.Walk treat a commit missing from the map as having no parents. Publish.RefEntries gives no entries for a ref the repository does not have. Neither case arises for a well-formed repository, which is the only kind the node accepts.
- Text: strings are Python 2 byte strings as sequences of characters. Whitespace is the six ASCII whitespace bytes.

## Where the code departs from what one might expect

The model follows the code in each case.

- **Duplicate selection.** One might expect a ref matched by several patterns to be selected once. The selection loop has no `break`, so such a ref is appended once per matching pattern. It is then published once per copy, and it appears once per copy in the summary (`Selection.SelectedMultiplicity`, `Selection.DuplicateSelectionExample`).
- **Missing commits.** One might expect a missing commit object to abandon only that ref's walk. The code raises and stops start-up, so the model requires parent-closed histories.
- **Summary round trip.** One might expect splitting the summary on commas to give back the selection. That holds exactly when the selection is non-empty and no selected ref contains a comma. An empty selection publishes "", which splits into `[""]` (`Text.SplitJoin`, `PublishFacts.RepoEntriesSummary`).
- **Head as ancestor.** One might expect the head itself never to get an ancestor entry. The code keeps it out only because histories are acyclic. On a cycle through the head, the head gets an ancestor entry too (`History.WalkListsHeadOnlyOnCycle`).
