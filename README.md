# synapse note network, modelled in Dafny

synapse keeps a personal knowledge base as a directory of Markdown notes. A node is named
by a key such as `foo` (a topic, stored as `foo.md` at the root), `thought:bar`
(`thought/bar.md`) or `image:a/b.png` (an attachment, stored under its own name). A note
links to another node by holding `[[key]]` in its text. The network object can:

- enumerate the nodes and look a key up;
- add a link, and make links between notes reciprocal;
- rename a node and update every note that links to it;
- run six consistency rules:
  - every link resolves;
  - links between notes go both ways;
  - projects link to a topic;
  - thoughts link to a topic or a project;
  - attachments have a predecessor;
  - topics are connected.

The command line turns a file path back into a key.

The model has these parts:

- **Disk.** The disk is a map from paths (component sequences relative to the root) to files
  and directories. Each operation of the network is a function from one disk to the next.
- **Mutating objects.** `Network` (its disk) and `Node` (its key) are classes whose methods
  perform the operations step by step, with loops where the source loops. Each method is
  proved equal to its specification function.
- **Properties.** Lemmas prove:
  - keys and paths round-trip;
  - link text is parsed the way the regular expression does;
  - `add_link` reciprocates;
  - `fix_bidirectional_links` leaves every note answered;
  - a second `fix_bidirectional_links` changes nothing;
  - `rekey` renames exactly the links to the old key and moves the file;
  - each rule reports nothing exactly when its demand holds;
  - the connectivity walk visits the closure of the root under topic links.

Modules and files:

- `errors.dfy`: `Errors`, the exceptions as values.
- `text.dfy`: `Text`, the Python `str` operations used.
- `keys.dfy`: `Keys`, `Node.type`, `Node.path`, `get_key_parts`, `_key_from_path`.
- `links.dfy`: `NoteText`, the link scanner, `_insert_into_section`, `_update_link`'s text rewrite.
- `disk.dfy`: `Disk`, the operations over the disk.
- `walk.dfy`: `Walk`, `bfs`.
- `checks.dfy`: `Checks`, the six rules and `check`.
- `network.dfy`: `NetworkModel`, the classes.

Where the behaviour of the code differs from what its names or comments suggest, the model follows the code:

- **Connectivity comparison.** The connectivity rule as written compares the two counts with `!=`, not "smaller than". `ConnectivityAsWritten` models it so. The six-rule check runs the corrected rule instead (see "## Findings"). The two agree whenever the walk from the first topic meets only listed topics (`ConnectivityAgrees`).
- **The walk is last-in first-out.** It pops from the end of a deque, so it is not breadth-first.
- **Key-to-path mapping.** Every `:` of a key becomes `/`, not only the first.
- **Nested note keys.** `rekey` does not reject a nested note key by a check of its own. Such a key has two or more `:`, so it fails in `get_key_parts`.
- **`_key_from_path`.** It drops the last three characters of a note key, whatever they are, not a `.md` suffix.
- **`add_link` recursion.** Its recursion is bounded by the interpreter's recursion limit, not by construction.

## Model

| member | source | states |
|---|---|---|
| Keys.KeyType | synapse/_network.py:200-206 | a key without ':' is a topic; otherwise the type is the text before the first ':', a proper prefix of the key holding no ':' |
| Keys.KeyPath | synapse/_network.py:208-210 | the components of `root / key.replace(':', '/')` are all ones pathlib keeps and hold no ':' |
| Keys.Suffix | synapse/_network.py:211 | pathlib's suffix is empty or a final `.xyz` with a single dot, shorter than the name and ending it (when it is empty: `Keys.SuffixEmptyIff`) |
| Keys.WithSuffix | synapse/_network.py:212 | `with_suffix` keeps the number of components and every component but the last (the last one: `Keys.WithSuffixKeepsStem`, `Keys.WithSuffixThenSuffix`) |
| Keys.SuffixEmptyIff | synapse/_network.py:211 | a name has no suffix exactly when it ends with a dot or has no dot strictly inside it |
| Keys.WithSuffixKeepsStem | synapse/_network.py:212 | `with_suffix` puts the new suffix right after the stem of the last component (the component without its old suffix) |
| Keys.SuffixOfStem | synapse/_network.py:211-212 | a `.xyz` suffix after a non-empty stem is what `suffix` reads back |
| Keys.WithSuffixThenSuffix | synapse/_network.py:211-212 | after `with_suffix(sfx)` on a non-empty name, `suffix` is `sfx` |
| Keys.WithSuffixOfPlainName | synapse/_network.py:212 | on a name without a suffix, `with_suffix` appends the suffix to the last component |
| Keys.AddMd | synapse/_network.py:211-212 | adding ".md" keeps the path's components plain |
| Keys.NodePath | synapse/_network.py:208-213 | `Node.path` is made of plain components |
| Keys.NodePathAddsMdOnlyToNotes | synapse/_network.py:208-213 | the path differs from the key's plain components exactly when the key is note-typed and its last component has no suffix, and then only by ".md" on the last component |
| Keys.PlainKeyParts | synapse/_network.py:200-213 | a key joined from plain components has those components as its path, and its type is the first one (topic for a single one) |
| Keys.PathOfJoin | synapse/_network.py:210 | parsing components joined by '/' gives them back |
| Keys.FileKeyRoundTrip | synapse/_network.py:84-101 | the key `_iter_files` makes for an attachment file has that file's path as its `Node.path` |
| Keys.NoteKeyRoundTrip | synapse/_network.py:79-82 | the key `_iter_notes` makes for `stem.md` has that file's path as its `Node.path` |
| Keys.NodePathOfPlainNote | synapse/_network.py:208-213 | a note key spelled from plain components gets ".md" added to its last component |
| Keys.SuffixOfMd | synapse/_network.py:211 | the suffix of `stem.md` is ".md" |
| Keys.DropMd | synapse/_network.py:81 | `with_suffix('')` on `stem.md` gives back the stem |
| Keys.NoteKeyOfMd | synapse/_network.py:81 | the enumerated key of a note file is its directory and stem joined by ':' |
| Keys.GetKeyParts | synapse/util.py:4-10 | fails exactly when the key holds two or more ':'; a key without ':' is ("topic", key); otherwise type + ":" + name is the key, the name holds no ':' and the type is `Node.type` |
| Keys.KeyFromPath | synapse/cli.py:25-39 | fails exactly when the path is not under the root; a single component loses its last three characters; `kind/rest` becomes `kind:rest`, losing its last three characters when kind is a note type |
| Keys.KeyFromPathRoundTrip | synapse/cli.py:25-39 | for a note file the command line derives the same key the network enumerates for it |
| Keys.TopicFromPath | synapse/cli.py:25-39 | a topic file `stem.md` under the root names the key `stem` |
| Keys.NoteFromPath | synapse/cli.py:25-39 | a note file `kind/stem.md` names the key `kind:stem` |
| Text.Split | synapse/_network.py:202 | `split` gives at least one piece, none holding the separator, and the text itself when it has no separator |
| Text.JoinSplit | synapse/_network.py:283-289 | joining the pieces of `split('\n')` with '\n' gives back the text |
| Text.SplitJoin | synapse/_network.py:283-289 | splitting pieces without the separator, once joined, gives them back |
| Text.SplitCount | synapse/_network.py:202-203 | there is one more piece than there are separators |
| Text.SplitHead | synapse/_network.py:202-204 | a text holding the separator splits into more than one piece, and is its first piece, the separator and the rest joined |
| Text.SplitOnce | synapse/cli.py:27 | `split('/', 1)` gives the text itself without a separator, else the two sides of the first separator |
| Text.ReplaceChar | synapse/_network.py:210 | `replace` of one character changes exactly the occurrences of it |
| Text.ReplaceCharJoin | synapse/_network.py:81 | replacing the separator of joined pieces joins them with the new separator |
| Text.RFind | synapse/_network.py:211 | the last index of a character, or -1 when absent |
| Text.DropLast3 | synapse/cli.py:37 | `key[:-3]` is the key without its last three characters, and empty for a shorter key |
| Text.Capitalize | synapse/_network.py:284 | the first character upper-cased and the rest lower-cased |
| NoteText.Close | synapse/_network.py:266 | where the lazy `.*?\]\]` ends, inside the text |
| NoteText.CloseIsFirst | synapse/_network.py:266 | the lazy match ends at the first "]]" not preceded by a newline, and fails exactly when every "]]" follows a newline |
| NoteText.StripLeft | synapse/_network.py:267 | `lstrip('[]')` is a suffix, starts with neither bracket, and is the text itself when it does not start with one |
| NoteText.StripRight | synapse/_network.py:267 | `rstrip('[]')` is a prefix, ends with neither bracket, and is the text itself when it does not end with one |
| NoteText.LinkAtStart | synapse/_network.py:266-267 | a match at the start of the text is the shortest single-line `[[...]]`, stripped, followed by the links of the rest |
| NoteText.NoOpenNoLinks | synapse/_network.py:266 | text without '[' holds no link |
| NoteText.LinksAfterPlain | synapse/_network.py:266 | a plain run (every '[' in it followed by another character) in front of other text adds no link |
| NoteText.LinksOfMarker | synapse/_network.py:266-267 | `[[k]]` for a clean key is read back as `k` |
| NoteText.LinkLineHoldsKey | synapse/_network.py:285 | the line `- [[k]]` holds exactly the link `k` |
| NoteText.LinksNewline | synapse/_network.py:266 | links never span a newline: the links of `a\nb` are those of `a` then those of `b` |
| NoteText.LinksOfJoinedLines | synapse/_network.py:289 | the links of lines joined by '\n' are the lines' links in order |
| NoteText.LinksOfSplitLines | synapse/_network.py:283 | the links of a text are those of its lines |
| NoteText.FirstIndex | synapse/_network.py:250 | `list.index` is the first position holding the element |
| NoteText.SectionInsertedPlacement | synapse/_network.py:247-255 | the link line goes right after the first occurrence of the header, or after a blank line and a new header at the end |
| NoteText.SectionInsertedLinks | synapse/_network.py:247-255 | inserting the line adds the line's links to the lines' links and removes none |
| NoteText.InsertIntoSection | synapse/_network.py:247-255 | the method's result is the insertion above |
| NoteText.LinksOfRender | synapse/_network.py:266-267 | the links of a text made of plain runs (single brackets allowed) and clean links are the keys of those links |
| NoteText.ReplaceAllLink | synapse/_network.py:314 | `[[k]]` becomes `[[new]]` when `k` is the old key and stays otherwise |
| NoteText.RenamedRender | synapse/_network.py:313-314 | `_update_link`'s replace renames exactly the link pieces holding the old key |
| NoteText.UpdateLinkRenamesLinks | synapse/_network.py:313-316 | after `_update_link` every link to the old key names the new key and every other link is unchanged, in order |
| Disk.Lookup | synapse/_network.py:33-43 | succeeds exactly when the key's path exists; a note node for a note-typed key; `NetworkKeyError` for the key otherwise |
| Disk.ScanFor | synapse/_network.py:226 | `target in successors` resolves the links in order and stops at the first match; a dangling link before it raises |
| Disk.LinksTo | synapse/_network.py:291 | `self in other.neighbors`: an unreadable note raises a read error; the answer is whether the target is among its links, and raises nothing when they all resolve |
| Disk.OfTypes | synapse/_network.py:140 | resolving every link, keeping those of the given types in their order and with their repeats (`Kept`); raises exactly when one dangles |
| Disk.KeptAppend | synapse/_network.py:140 | the filter keeps relative order: filtering a concatenation concatenates the filtered parts |
| Disk.KeptCounts | synapse/_network.py:140 | a key of a kept type occurs in the result as often as in the links, any other key not at all |
| Disk.NeighborsOfTypes | synapse/_network.py:269-272 | the note's neighbours of the given types, in link order with repeats, raising exactly when the note is unreadable or a link dangles |
| Disk.WithLinkLinks | synapse/_network.py:283-289 | the text `add_link` writes holds the links it held plus one to the other node |
| Disk.WriteLinkAdds | synapse/_network.py:283-289 | the write adds one link to the other node in this note's file and changes no other path |
| Disk.WriteLinkGrows | synapse/_network.py:283-289 | no link is lost and the only new link is the one written |
| Disk.WriteLinkSound | synapse/_network.py:283-289 | the write keeps a sound network sound |
| Disk.AddLinkReciprocal | synapse/_network.py:276-292 | between two notes of a sound network `add_link` raises nothing, needs two frames at most, leaves each linking to the other, adds no other link and touches no other file |
| Disk.AddLinkToAttachment | synapse/_network.py:276-292 | a link to an attachment is written once and nothing is reciprocated |
| Disk.AddLinkNewRecip | synapse/_network.py:276-292 | in a canonical sound network every link `add_link` adds is answered by a link back |
| Disk.FixNeighborsReciprocates | synapse/_network.py:105-108 | the inner loop for one note raises nothing and leaves each note-typed neighbour linking back |
| Disk.FixNeighborsNothingToDo | synapse/_network.py:105-108 | when every link of a note is answered, its inner loop writes nothing and raises nothing |
| Disk.FixAllNothingToDo | synapse/_network.py:103-108 | on a sound network whose listed notes are all answered, the fix writes nothing and raises nothing |
| Disk.FixIdempotent | synapse/_network.py:103-108 | running `fix_bidirectional_links` a second time changes nothing and raises nothing |
| Disk.FixReciprocates | synapse/_network.py:103-108 | `fix_bidirectional_links` on a canonical sound network raises nothing and leaves every listed note answered by each note it links to |
| Disk.UpdateLinkStep | synapse/_network.py:313-316 | on a note made of plain runs and clean links, one `_update_link` renames the links to the old key in that note and writes no other file |
| Disk.RenameInPredecessorsRenames | synapse/_network.py:305-306 | the predecessor loop raises nothing over resolvable notes made of plain runs and clean links (attachments and other files may hold anything), renames every link to the old key in each listed note and writes no other file |
| Disk.MakeDirs | synapse/_network.py:260 | `mkdir(parents=True, exist_ok=True)` keeps every entry, creates every ancestor, and adds only directories on the path |
| Disk.EnsureDirectoryAncestors | synapse/_network.py:257-260 | where nothing stands at the path, all its ancestors exist afterwards |
| Disk.Move | synapse/_network.py:242 | `rename` fails exactly when the source is missing; otherwise the entry moves to the target, replacing it, and every other entry is unchanged |
| Disk.RekeyRejectsBeforeWriting | synapse/_network.py:229-233 | both `rekey`s raise with the disk untouched on a malformed new key, on a change of type (`Node`) or on a non-note type (`NoteNode`) |
| Disk.NoteRekeyMoves | synapse/_network.py:294-311 | a valid `NoteNode.rekey` renames the links to the old key in every other listed note, moves the file to the target with its own links renamed, removes the old key and adopts the new one |
| Disk.NodeRekeyMoves | synapse/_network.py:229-244 | as for a note, and the target's directories exist when the target is new |
| Disk.NoteTargetIsNodePath | synapse/_network.py:296-308 | a note re-keyed to a plain key lands where `Node.path` of the new key points |
| Walk.NeighborsAreLinks | synapse/_network.py:181-182 | every topic neighbour is a key some file links to |
| Walk.PushNew | synapse/_network.py:332-335 | the inner loop marks every neighbour seen and pushes nothing when all were seen |
| Walk.PushNewCounts | synapse/_network.py:332-335 | each neighbour not seen before is pushed exactly once, and nothing else is pushed |
| Walk.PushNeighbors | synapse/_network.py:332-335 | the method's stack and seen set are those of the inner loop above |
| Walk.Walk | synapse/_network.py:318-335 | the method's pops are those of the walk's specification, or its exception |
| Walk.WalkVisitsClosure | synapse/_network.py:318-335 | a walk that ends pops the root first, visits a set closed under topic links, each key reached from one before it, and no key but the root twice |
| Walk.WalkStaysWithin | synapse/_network.py:318-335 | within any closed set holding the root the walk raises nothing and stays inside the set |
| Checks.MissingLinks | synapse/_network.py:128-131 | each message names the note and one of its links that does not exist |
| Checks.MissingLinksCount | synapse/_network.py:128-131 | one message per occurrence of a dangling link, none for an existing one |
| Checks.DanglingLinks | synapse/_network.py:125-134 | the rule raises only a read error of a listed note |
| Checks.DanglingLinksRaises | synapse/_network.py:127-128 | the rule raises exactly when some note cannot be read |
| Checks.DanglingLinksNamed | synapse/_network.py:125-131 | each message names a listed note, a link it holds, and that link's absence |
| Checks.DanglingLinksCounted | synapse/_network.py:125-131 | a note listed once gets one message per occurrence of each dangling link it holds |
| Checks.DanglingLinksNone | synapse/_network.py:125-134 | the rule reports nothing exactly when every link of every note exists |
| Checks.NoneMissing | synapse/_network.py:128-131 | no message for a list of links exactly when they all exist |
| Checks.OneWayFrom | synapse/_network.py:141-144 | one message per neighbour not linking back, none exactly when all link back |
| Checks.OneWayIn | synapse/_network.py:139-144 | for one note: messages only for note-typed neighbours not linking back, none exactly when the note is answered by all |
| Checks.OneWayLinksNone | synapse/_network.py:137-144 | the rule reports nothing exactly when every note is answered by each note it links to |
| Checks.OneWayLinksSound | synapse/_network.py:137-144 | over a sound network the rule raises nothing |
| Checks.FixLeavesNoOneWayLinks | synapse/_network.py:103-108 | after `fix_bidirectional_links` on a canonical sound network, the bidirectionality rule reports nothing |
| Checks.Unlinked | synapse/_network.py:150-163 | the notes none of whose neighbours has one of the types; raises exactly when a note is unreadable or a link dangles |
| Checks.ProjectsWithoutTopics | synapse/_network.py:148-154 | one "No topics linked" message exactly for each project linking to no topic |
| Checks.ThoughtsWithoutTopicsOrProjects | synapse/_network.py:157-163 | one "No topics or projects linked" message exactly for each thought linking to neither |
| Checks.NoTopicMessages | synapse/_network.py:154 | a message for exactly the projects given |
| Checks.NoTopicOrProjectMessages | synapse/_network.py:163 | a message for exactly the thoughts given |
| Checks.ProjectsCleanIff | synapse/_network.py:148-154 | the rule reports nothing exactly when every project links to a topic |
| Checks.ThoughtsCleanIff | synapse/_network.py:157-163 | the rule reports nothing exactly when every thought links to a topic or project |
| Checks.HasPredecessor | synapse/_network.py:223-227 | `list(predecessors)` is non-empty exactly when some note links to the key |
| Checks.HasPredecessorSound | synapse/_network.py:223-227 | over a sound network the predecessor search raises nothing |
| Checks.Orphans | synapse/_network.py:166-172 | a message exactly for each attachment no note links to |
| Checks.OrphansCleanIff | synapse/_network.py:166-172 | the rule reports nothing exactly when every attachment has a predecessor |
| Checks.Connectivity | synapse/_network.py:175-188 | no topics raises; otherwise at most one message, naming the first topic as root and a non-empty set of unvisited topics |
| Checks.ConnectivityReportsUnreached | synapse/_network.py:175-188 | the message names only topics the root cannot reach, and is present whenever such a topic is listed |
| Checks.ConnectivityCleanIff | synapse/_network.py:175-188 | the rule reports nothing exactly when every listed topic lies in every closed set holding the root |
| Checks.ConnectivityAsWritten | synapse/_network.py:175-188 | the rule as written raises when no topic is listed |
| Checks.ConnectivityAgrees | synapse/_network.py:175-188 | when the walk from the first topic meets only listed topics, the rule as written and the corrected rule give the same result |
| Checks.Entries | synapse/_network.py:110-118 | a rule's messages are appended one for one |
| Checks.RunRule | synapse/_network.py:125-188 | only the connectivity rule leaves the topic to be picked, always from a non-empty set |
| Checks.RunAll | synapse/_network.py:110-118 | with no fatal rule, an exception comes from some rule |
| Checks.CheckFromRunsAll | synapse/_network.py:110-118 | past the fatal rule, `check` is every remaining rule run in turn into one list |
| Checks.FirstRule | synapse/_network.py:110-118 | the link-existence rule runs first and stops the check when the list is non-empty |
| Checks.CheckStopsAtDanglingLinks | synapse/_network.py:113-116 | any dangling link stops the check after the first rule, whose messages are all the list holds |
| Checks.CheckRunsEveryRule | synapse/_network.py:110-118 | with no dangling link the five other rules run in order |
| Checks.CheckRaises | synapse/_network.py:110-118 | an exception from any rule escapes `check`, and every exception comes from some rule |
| Checks.RuleCleanIff | synapse/_network.py:125-188 | each rule, when it returns, adds nothing exactly when its demand holds |
| Checks.CheckFromCleanIff | synapse/_network.py:110-118 | from any point on, the check adds nothing exactly when the list is empty and every remaining rule's demand holds |
| Checks.CheckCleanIff | synapse/_network.py:110-118 | `check` returns an empty list exactly when the network meets all six demands |
| Checks.AsWrittenMissesUnreachedTopic | synapse/_network.py:186-188 | with topics `a`, `b` and `a` linking to itself as `a.md`, the rule as written reports nothing, while the corrected one names `b` |
| Checks.AsWrittenPopsFromEmptySet | synapse/_network.py:186-188 | with one topic `a` linking to itself as `a.md`, the rule as written pops from an empty set, while the corrected one reports nothing |
| Checks.CountMissesTopic | synapse/_network.py:186 | two keys visited against two topics: the count matches though the second topic was never reached |
| Checks.CountPopsNothing | synapse/_network.py:186-188 | two keys visited against one topic: the counts differ, yet nothing is unvisited |
| NetworkModel.ListsOnceCount | synapse/_network.py:84-101 | a list naming each file once is as long as the set of files |
| NetworkModel.EnumeratesCount | synapse/_network.py:84-101 | an enumeration has one key per file, and its keys are exactly those of the files |
| NetworkModel.ListsOnceGrow | synapse/_network.py:98-101 | listing one more file, not listed before, still names each file once |
| NetworkModel.ListedStep | synapse/_network.py:98-101 | one turn of the listing loop keeps the listed files and their keys in step |
| NetworkModel.AttachmentKeyResolves | synapse/_network.py:84-101 | an enumerated attachment key is in the network, as a file |
| NetworkModel.NoteKeyResolves | synapse/_network.py:79-82 | an enumerated note key of `stem.md` is in the network, as a file |
| NetworkModel.AddLinkSplits | synapse/_network.py:276-292 | `add_link` is its write followed by the link back |
| NetworkModel.Network.constructor | synapse/_network.py:20-21 | the network stands over the given disk |
| NetworkModel.Network.IterFiles | synapse/_network.py:84-101 | the keys of the files directly inside the directory, each file listed exactly once, in some order; nothing when it is not a directory |
| NetworkModel.Network.List | synapse/_network.py:51-77 | topics at the root, every other kind in its own directory |
| NetworkModel.Network.FixBidirectionalLinks | synapse/_network.py:103-108 | the loops leave the disk and exception of `fix_bidirectional_links` |
| NetworkModel.Network.WriteLinkLine | synapse/_network.py:283-289 | the disk after `add_link`'s write |
| NetworkModel.Network.AddLinkStep | synapse/_network.py:276-292 | one frame: either the outcome of `add_link`, or the reciprocal call that remains |
| NetworkModel.Network.AddLink | synapse/_network.py:276-292 | the disk and exception `add_link` leaves |
| NetworkModel.Network.Check | synapse/_network.py:110-118 | the loop raises what `check` raises, and otherwise returns one message per entry, the connectivity topic picked from its set |
| NetworkModel.InstantiatesAppend | synapse/_network.py:112-114 | appending messages keeps them matched to their entries |
| NetworkModel.CheckFromStep | synapse/_network.py:112-116 | one turn of the check's loop: raise, stop on the fatal rule, or go on |
| NetworkModel.Messages | synapse/_network.py:188 | each message is its entry, with `set.pop` picking a topic from the set |
| NetworkModel.Node.constructor | synapse/_network.py:193-195 | the node holds its network and key |
| NetworkModel.Node.AddLink | synapse/_network.py:276-292 | the disk and exception `add_link` leaves |
| NetworkModel.Node.AddLinkByKey | synapse/_network.py:278-279 | a key is looked up first, and a missing one raises before any write |
| NetworkModel.Node.UpdateLink | synapse/_network.py:313-316 | the disk after `_update_link`, or the read error |
| NetworkModel.Node.Rekey | synapse/_network.py:229-244 | the disk, key and exception that `rekey` leaves, for a `NoteNode` (lines 294-311) or a `Node` |
| NetworkModel.Node.RenameInPredecessors | synapse/_network.py:305-306 | the loop leaves what the predecessor renaming leaves |

## Left out

- Files are read and written through a map from paths to entries. The model leaves out:
  - open or write failures other than a missing file or a directory;
  - permissions, symbolic links and encodings;
  - the working directory.
- The order in which a directory is listed is not fixed. `IterFiles` picks each file nondeterministically, and the rules take the listing as a parameter.
- Nodes compare by key. Node objects are not cached, so every access reads the disk afresh, as in the source.
- `NetworkModel.Network.AddLink`: the nested `other.add_link(self)` is evaluated by its specification function rather than by a recursive method call. A recursive method over the class state does not verify within the resource limit. The write and the decision to recurse are performed step by step (`AddLinkStep`).
- The interpreter's recursion limit is a `fuel` parameter of `add_link`. Its exhaustion is the `RecursionLimit` error.
- The link properties assume a key with no `[`, no `]` and no newline (`CleanKey`). This is stricter than the source needs: `x[[y` is written as `[[x[[y]]` and read back unchanged. The keys that really fail the round trip are those holding `]]` or a newline, or with a bracket at either end (`[x` reads back as `x`).
- `NoteText.UpdateLinkRenamesLinks`: the renaming properties are proved for notes whose text splits into clean links and plain runs in which no link starts (`WellFormed`). Single brackets, as in `[ ]` or `[x](y)`, are allowed. A run holding `[[` with no `]]` on its line, or a link whose key holds a bracket, is not covered.
- `Disk.UpdateLinkStep`: proved for a note whose text is `WellFormed`, as for `NoteText.UpdateLinkRenamesLinks`.
- `Disk.RenameInPredecessorsRenames`: proved when the listed notes are `WellFormed`. Attachments and other files may hold anything.
- `Disk.NoteRekeyMoves`: proved when the listed notes are `WellFormed`. Attachments and other files may hold anything.
- `Disk.NodeRekeyMoves`: proved when the listed notes are `WellFormed`. Attachments and other files may hold anything.
- `Keys.KeyPath`: a key is read as a path relative to the root. pathlib would make a key starting with `/` (or with `:`, which becomes `/`) an absolute path, and a `..` component would climb out of the root. The model drops empty and `.` components and keeps `..` as a name, so every key names a path under the root.
- `NetworkModel.Node.Rekey`: a new key whose target is the root itself (for instance `""` or `topic:`) raises `NotUnderRoot` in the model (`Disk.NoteRekeySpec`, `Disk.NodeRekeySpec`). The source renames the file beside the root and raises nothing; the disk model has no place outside the root.
- The network's root itself is never an entry. A key whose path normalises to the root reads as missing.
- `NoteNode.rekey` and `Node.rekey` on a directory node move only that entry, not what lies below it.
- The regular expression engine is modelled for the one pattern used, `\[\[.*?\]\]`, by a hand-written scanner. `str.strip('[]')` is modelled for the two characters.
- `str.capitalize` is modelled for ASCII letters only.
- The text of the failure messages is not built. A message is a datatype value naming the same keys.
- `Checks.RunRule`: the check runs the corrected connectivity rule, not the rule as written. It matches the source exactly when the walk from the first topic meets only listed topics (`Checks.ConnectivityAgrees`). Otherwise the source may miss an unreachable topic or raise `KeyError` (see "## Findings").
- `Checks.CheckSpec`: runs the rules through `Checks.RunRule`, so it has the corrected connectivity rule.
- `Checks.RuleCleanIff`: proved of the corrected connectivity rule; for the rule as written it holds when the walk meets only listed topics (`Checks.ConnectivityAgrees`).
- `Checks.CheckFromCleanIff`: proved of the check with the corrected connectivity rule, as for `Checks.RuleCleanIff`.
- `Checks.CheckCleanIff`: proved of the check with the corrected connectivity rule, as for `Checks.RuleCleanIff`.
- `NetworkModel.Network.Check`: performs the check with the corrected connectivity rule, as `Checks.RunRule` does.
- Which topic `set.pop()` picks is not fixed. The connectivity entry carries the whole set of unvisited topics, and `Messages` picks one of them.
- `Network.__iter__` chains the seven enumerations. It is represented by the `Listing` that `List` returns; the chain itself is not built.
- Drawing the topic graph (`synapse/draw.py`), argument parsing and printing in `synapse/cli.py` are not part of this model.
- Aliased keys are not covered. `Canonical` requires that no two keys name the same file, and the reciprocity proofs assume it. Two aliases of one file (`a` and `a.md`) can defeat `add_link`'s own check.

## Findings

| source | as written | input that shows it | evidently intended | confidence | as-written member | corrected member |
|---|---|---|---|---|---|---|
| synapse/_network.py:186-188 | compares the number of keys visited with the number of topics | topics `a` and `b`, where `a.md` holds `[[a.md]]`: the walk visits `a` and `a.md`, two keys for two topics, and the unreachable `b` goes unreported. A nested topic does the same: `a.md` holding `[[sub/x]]` and `sub/x.md` holding `[[a]]` | report a topic exactly when some listed topic was not visited | high, proved about the model; not executed | Checks.AsWrittenMissesUnreachedTopic | Checks.ConnectivityReportsUnreached |
| synapse/_network.py:186-188 | pops from the difference once the counts differ | one topic `a` whose file holds `[[a.md]]`: two keys visited against one topic, the difference is empty, and `set.pop()` raises `KeyError` | no message when every topic was visited | high, proved about the model; not executed | Checks.AsWrittenPopsFromEmptySet | Checks.ConnectivityCleanIff |
