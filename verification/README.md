# Verified model of night's core data structures and protocols

night is a C re-implementation of nginx. This project models its hardest components in Dafny and proves what they are
for: the timer tree keeps its order and balance, the configuration reader sees through its sliding buffer exactly the
file, location lookup is longest-prefix match, dates are right, memory handed out is disjoint, the hash table equals a
linear scan, and the master process outlives its workers. `dafny verify dfyconfig.toml` checks everything.

The source exists twice, in `chapter_1/night/src` and in the older, fuller `chapter_1/night/src_2025_11_30`. Each
component is taken from the tree that its rows below cite.

| files | component |
|---|---|
| `RbLinks`, `RbEdits`, `RbInsert`, `RbDelete`, `RbRemove`, `RbTree`, `RbFacts` | intrusive red-black tree with parent links and one sentinel |
| `Timers` | event timers over that tree |
| `ConfScan`, `ConfRead`, `ConfLayout`, `ConfGrammar`, `ConfWords`, `ConfQuote`, `ConfParse` | configuration tokenizer, its grammar and its words, quoting, recursive parser |
| `Location`, `NestedLocation` | location lookup |
| `Calendar` | `night_gmtime`, `night_http_time` |
| `Pool`, `PoolArray` | pool allocator and growable array |
| `HashTable`, `HashBuild` | static hash table |
| `Queue`, `Connections` | queue sort, connection pool |
| `Processes`, `Master`, `MasterTable`, `MasterSlots`, `MasterStop` | process table, master process and its signals |
| `Buffers` | buffer chains |
| `Modules` | module indices |
| `Basics` | what several of these share |

## How the model is built

- **Pointers.** Nodes, links and connections are identifiers; each field is a map or sequence that the methods update in
  place, so that a stale parent link or the sentinel's parent can be written as the C code writes it. Ghost state (the
  in-order sequence, the list behind a head pointer) is tied to the links by an invariant.
- **Red-black tree.** The invariant exempts the root's parent, which the early return of the delete leaves stale. Keys
  are 64-bit, and the comparison is the wrapped difference; sortedness is claimed for keys in a window in which no
  difference overflows, and `RbFacts.ComparisonIsExact` says that this is exactly when the comparison is right. The tree
  methods refine value-level turns and removals, whose effects are proved in small lemmas, mirrored for the right side.
- **Configuration.** The flag `variable` is read before it is set; it starts as 0. A read of the file always succeeds
  and the size of the file is its length. The set functions of directives are not part of this model: `Env` gives the
  outcome of each by file position. A block directive saves the context, parses once and restores, as
  `night_events_module.c` does. The plain scan is not its own specification: `ConfLayout` says how a directive may be
  laid out (gaps with comments, bare and quoted words, variables, escapes), `ConfGrammar` proves that exactly these
  texts are read, each as the words it shows, and `ConfWords` says byte by byte what the words read as. The commands of
  a module are those before the entry with the empty name that ends its table.
- **Location.** The tree builder is not part of this model, so well-formedness is a predicate: each level is strictly
  ordered by the comparator, no inclusive name is a proper prefix of another name on its level, every node has an
  entry, only inclusive nodes have nested suffixes, these are not empty, and names hold no NUL.
- **Calendar.** An undefined overflow is the result `None`. The property that every time gets its clamped date is false:
  the clamp comes after the day number is stored in an int. `Gmtime` states exactly when it holds, and `HttpTime` exactly
  when the text has 29 bytes.
- **Pool.** Addresses are integers and the system's answers are parameters of each request; that they are unused
  memory, apart from each other, is the condition `AllFresh` on the inputs of a run. Pool sizes are at least one header.
  The disjointness of pieces needs a pool size that is a multiple of 8: with it every run is safe, and without it
  `Pool.Overrun` is a run that is not. The fit test is unsigned, as in the source.
- **Array.** The property that push returns a slot of the array fails for an array without capacity that cannot grow in
  place, since doubling zero gives zero; `Push` states exactly when it holds.
- **Hash.** Memory cells remember which byte of which pointer, length or character they hold, so that a read across two
  writes cannot go unnoticed. Keys without a name are skipped. The counters wrap at 16 bits as in the source.
  That the memory suffices is false on pages of 64K and more: `EnoughExactlyWhen` states when it does, `Init` ends as
  `Cramped` when it does not, and `OneLongKey` is an input for which it does not. Without a named key the source divides
  by zero for bucket sizes from 8 to 23, and `Init` ends as `Trapped`; below 8 the difference wraps, and the build
  succeeds. The specification counts remainders by subtraction; the methods compute bucket numbers with the remainder
  operator, and `BucketIsRemainder` and `ShortIsRemainder` connect the two.
- **Master.** SIGCHLD is not blocked and its handler can run between any two steps, including those inside the reaping
  pass and between fork and the recording of the child; it collects every child that has terminated. SIGTERM and
  SIGQUIT are blocked except during sigsuspend. That the master can always be stopped is false. `StopsExactlyWhen`
  states when it can, for every state after the children are forked: no slot is *lost* (it waits for a child that has
  been collected already, or shares its pid with another such slot), a slot that an exited slot with the same pid
  would keep from being found can first be cleared by a pass, and a pass is still to end after the stop signal.
  `DeafReachable` and `LostReachable` are runs into the two kinds of failure. A fork may answer any pid that no child
  has, also one still in the table.
- **Timers.** Deadlines and their differences wrap at 64 bits. The tree's order, and with it the least deadline, is
  claimed while every deadline, when it is stored, differs from those then armed by a 64-bit integer; such a window
  may slide without end.
- **Connections.** What a read handler does when it is asked to close is a parameter of each call. `Drained` follows
  the answers of any handlers; for handlers that close, `Drain`, `Get` and `DrainedClosing` say in closed form which
  connections are closed and which one is lent.
- **Buffers.** A byte is named by the place it comes from. The buffer of a link is kept under the link.
- **Sizes and counters** that the source keeps in `size_t` are unbounded, except where a width matters and is written
  out (64-bit keys and hashes, 32-bit days, 16-bit bucket sizes, the pool's 32-bit failure counters).

Trace and log output is dropped.

## Model

| member | source | states |
|---|---|---|
| `RbLinks.LeftTurnShape` | chapter_1/night/src_2025_11_30/core/night_rbtree.c:160-193 | a left rotation of a well-linked tree gives a well-linked tree with the same in-order sequence |
| `RbLinks.RightTurnShape` | chapter_1/night/src_2025_11_30/core/night_rbtree.c:195-229 | the same for a right rotation, by mirroring |
| `RbTree.Tree.LeftRotate` | chapter_1/night/src_2025_11_30/core/night_rbtree.c:160-193 | the pointer writes are exactly the rotation; nothing else changes |
| `RbTree.Tree.RightRotate` | chapter_1/night/src_2025_11_30/core/night_rbtree.c:195-229 | the pointer writes are exactly the rotation; nothing else changes |
| `RbTree.Tree.Descend` | chapter_1/night/src_2025_11_30/core/night_rbtree.c:50-60 | the descent ends at a free child position; with sorted keys in the window it is behind every key not greater and before every greater one |
| `RbTree.Tree.InsertTimerValue` | chapter_1/night/src_2025_11_30/core/night_rbtree.c:41-67 | the new red leaf is at that position of the in-order sequence; the only fault it may bring is a red parent |
| `RbTree.Tree.Recolour` | chapter_1/night/src_2025_11_30/core/night_rbtree.c:111-117 | a red uncle: the fault moves two levels up and stays the only one |
| `RbTree.Tree.LiftLeft` | chapter_1/night/src_2025_11_30/core/night_rbtree.c:118-129 | a black uncle, parent a left child: at most two rotations leave no red node with a red child above the node |
| `RbTree.Tree.LiftRight` | chapter_1/night/src_2025_11_30/core/night_rbtree.c:142-153 | the mirrored case |
| `RbTree.Tree.Rebalance` | chapter_1/night/src_2025_11_30/core/night_rbtree.c:104-157 | the loop terminates and leaves a valid red-black tree with the same in-order sequence |
| `RbTree.Tree.Insert` | chapter_1/night/src_2025_11_30/core/night_rbtree.c:78-158 | every insert keeps the tree valid, adds exactly the node, and puts it behind all keys not greater (first-in first-out for equal keys) |
| `RbTree.Tree.Pick` | chapter_1/night/src_2025_11_30/core/night_rbtree.c:244-258 | the node that is spliced out and the child that takes its place: itself when a child is missing, else the successor |
| `RbTree.Tree.DropRoot` | chapter_1/night/src_2025_11_30/core/night_rbtree.c:260-272 | the early return: the root's only child becomes a black root; its parent field stays stale, which the invariant allows |
| `RbTree.Tree.Substitute` | chapter_1/night/src_2025_11_30/core/night_rbtree.c:276-334 | splicing out the successor and putting it in the node's place, field by field, is removal from the in-order sequence; the parent of the moved child, sentinel included, is set as the fixup needs it |
| `RbTree.Tree.TakeOut` | chapter_1/night/src_2025_11_30/core/night_rbtree.c:274-339 | after the removal the tree is valid, or exactly one black is missing above the moved child |
| `RbTree.Tree.SinkLeft` | chapter_1/night/src_2025_11_30/core/night_rbtree.c:345-377 | one round of the fixup, fault on the left: the fault moves up, or is mended |
| `RbTree.Tree.SinkRight` | chapter_1/night/src_2025_11_30/core/night_rbtree.c:378-406 | one round of the fixup, fault on the right |
| `RbTree.Tree.Fixup` | chapter_1/night/src_2025_11_30/core/night_rbtree.c:341-409 | the fixup loop terminates and restores every red-black property |
| `RbTree.Tree.Delete` | chapter_1/night/src_2025_11_30/core/night_rbtree.c:231-410 | every delete of a member keeps the tree valid and removes exactly that node from the in-order sequence |
| `RbTree.Tree.Min` | chapter_1/night/src_2025_11_30/core/night_rbtree.c:412-424 | the leftmost node is the first of the in-order sequence |
| `RbInsert.HungRising` | chapter_1/night/src_2025_11_30/core/night_rbtree.c:62-66 | hanging a red leaf in a valid tree: no black count changes |
| `RbInsert.InnerRising` | chapter_1/night/src_2025_11_30/core/night_rbtree.c:120-124 | turning the inner child outside keeps every property but the one fault |
| `RbInsert.OuterRising` | chapter_1/night/src_2025_11_30/core/night_rbtree.c:126-128 | recolouring and turning the grandparent removes the fault without changing black counts |
| `RbDelete.RedSibling` | chapter_1/night/src_2025_11_30/core/night_rbtree.c:349-355 | turning a red sibling keeps the one missing black where it is |
| `RbDelete.BlackSibling` | chapter_1/night/src_2025_11_30/core/night_rbtree.c:357-361 | a sibling with black children turns red: the missing black moves to the parent |
| `RbDelete.InnerNephew` | chapter_1/night/src_2025_11_30/core/night_rbtree.c:363-369 | turning the inner red nephew outside |
| `RbDelete.OuterNephew` | chapter_1/night/src_2025_11_30/core/night_rbtree.c:371-375 | turning the parent with an outer red nephew supplies the missing black |
| `RbDelete.ArrivedAtRoot` | chapter_1/night/src_2025_11_30/core/night_rbtree.c:343-409 | a black missing above the whole tree is not missing at all |
| `RbRemove.RemovedBlack` | chapter_1/night/src_2025_11_30/core/night_rbtree.c:274-334 | removing a black node leaves exactly one black missing, at the moved child |
| `RbRemove.RemovedRed` | chapter_1/night/src_2025_11_30/core/night_rbtree.c:336-339 | removing a red node leaves a valid tree, so the early return is right |
| `RbFacts.WalkIsOrder` | chapter_1/night/src_2025_11_30/core/night_rbtree.c:41-424 | an in-order walk along the child links visits exactly the ghost sequence, so the sequence is the tree's own |
| `RbFacts.EqualBlackCounts` | chapter_1/night/src_2025_11_30/core/night_rbtree.c:78-410 | all ways from the root to the sentinel have the same number of black nodes |
| `RbFacts.DepthIsLogarithmic` | chapter_1/night/src_2025_11_30/core/night_rbtree.c:78-410 | no way from the root is longer than twice the logarithm of the number of nodes |
| `RbFacts.ComparisonIsExact` | chapter_1/night/src_2025_11_30/core/night_rbtree.c:52-52 | the subtraction test orders two 64-bit keys correctly exactly when their difference is a 64-bit integer |
| `RbFacts.InsertKeepsSorted` | chapter_1/night/src_2025_11_30/core/night_rbtree.c:41-67 | inserting at the place found keeps sorted keys sorted |
| `RbFacts.DeleteKeepsSorted` | chapter_1/night/src_2025_11_30/core/night_rbtree.c:231-334 | deleting keeps sorted keys sorted |
| `RbFacts.FirstIsLeast` | chapter_1/night/src_2025_11_30/core/night_rbtree.c:412-424 | in a sorted tree the first node has the least key |
| `Timers.EventTimers.AddTimer` | chapter_1/night/src_2025_11_30/event/night_event_timer.c:24-70 | the event is armed once; the old deadline stays if it is less than 600 ms from the new one, else the new one is stored, as long as the two differ by a 64-bit integer that has an absolute value; all other events keep theirs |
| `Timers.EventTimers.DelTimer` | chapter_1/night/src_2025_11_30/event/night_event_timer.c:72-86 | the event is disarmed and leaves the tree, all others keep their deadlines |
| `Timers.EventTimers.FindTimer` | chapter_1/night/src_2025_11_30/event/night_event_timer.c:88-110 | -1 exactly when nothing is armed, else never negative; with e the earliest armed deadline, 0 if it has passed and else the time to it, and 0 exactly when some armed deadline has passed, as long as every deadline when stored was within a 64-bit difference of those then armed and the earliest is within one of now |
| `Timers.EventTimers.DeadlineIsClose` | chapter_1/night/src_2025_11_30/event/night_event_timer.c:49-57 | the stored deadline is less than 600 ms from the one last requested exactly when the two differ by a 64-bit integer other than the least one, which has no absolute value |
| `Timers.EventTimers.Run` | chapter_1/night/src_2025_11_30/event/night_event_timer.c:24-110 | over any run, the flags and the last requested deadlines are those of replaying the operations, the flag is set exactly for the nodes in the tree, the tree stays valid, and it stays sorted if all deadlines asked for and those armed at the start differ pairwise by 64-bit integers |
| `Timers.MissedDeadline` | chapter_1/night/src_2025_11_30/event/night_event_timer.c:88-110 | outside such a window: two deadlines for which the time to the later one is returned although the earlier has long passed |
| `ConfScan.LimitedScan` | chapter_1/night/src/core/night_conf.c:346-494 | the page-limited scan says "too long" exactly when a run of a whole page precedes the end of the token, and otherwise equals the unlimited scan in code, words, position and line |
| `ConfScan.SpanBound` | chapter_1/night/src/core/night_conf.c:346-494 | no token is too long for a page that holds the rest of the file |
| `ConfScan.ReadConsumes` | chapter_1/night/src/core/night_conf.c:299-763 | every directive and every block end moves the position on, and the handler always sees at least one word |
| `ConfScan.WordTextKept` | chapter_1/night/src/core/night_conf.c:519-559 | backslashes inside a word always stand in front of a byte of the word |
| `ConfRead.Digest` | chapter_1/night/src/core/night_conf.c:504-691 | the flags are an encoding of the scanner's mode, and one byte of the loop is one move of it |
| `ConfRead.Unescape` | chapter_1/night/src/core/night_conf.c:704-744 | the unescape loop stops exactly at the end of the word, never writes past its allocation, and yields the unescaped word |
| `ConfRead.ConfFile.Refill` | chapter_1/night/src/core/night_conf.c:433-486 | moving the unfinished token to the front and reading on keeps the buffer a window of the file, at the same position |
| `ConfRead.ConfFile.ReadToken` | chapter_1/night/src/core/night_conf.c:299-763 | for every file and page size the buffered reader computes exactly the page-limited scan of the whole file from the same position; it says "too long" exactly for overlong runs, and otherwise gives what the unlimited scan gives |
| `ConfLayout.ReadsFrom` | chapter_1/night/src/core/night_conf.c:504-763 | from a gap on, the rest of a directive is read as its words, whatever gaps, comments, quotes, variables and escapes it is laid out with |
| `ConfLayout.ScanGap` | chapter_1/night/src/core/night_conf.c:504-514 | blanks and comments are passed over, and their lines counted |
| `ConfLayout.ScanBody` | chapter_1/night/src/core/night_conf.c:516-520 | inside a word of any kind, escaped bytes and braces behind a dollar sign do not end it |
| `ConfGrammar.DirectiveReads` | chapter_1/night/src/core/night_conf.c:299-763 | every layout of a directive is read as its terminator, words, position and line |
| `ConfGrammar.DirectiveExactly` | chapter_1/night/src/core/night_conf.c:299-763 | a token is read as a directive exactly if a directive is laid out at that position, and every layout of it gives the code, words, position and line that are read |
| `ConfGrammar.BlockEndExactly` | chapter_1/night/src/core/night_conf.c:600-611 | a token is read as the end of a block exactly if a gap and a closing brace stand there |
| `ConfGrammar.FileEndExactly` | chapter_1/night/src/core/night_conf.c:355-390 | the end of the file is read exactly if only blanks and comments are left, the last of which needs no end of line |
| `ConfGrammar.ErrorExactly` | chapter_1/night/src/core/night_conf.c:299-763 | everything else, and nothing else, is an error |
| `ConfGrammar.GapSkipped` | chapter_1/night/src/core/night_conf.c:504-514 | a gap in front of any token, whatever it reads as, changes only position and line |
| `ConfGrammar.CommentSkipped` | chapter_1/night/src/core/night_conf.c:504-514 | a comment line in front of a token: the token behind it is read, one line further |
| `ConfWords.LineReads` | chapter_1/night/src/core/night_conf.c:519-763 | a line of words, bare or in quotes, is read as these words, wherever it stands |
| `ConfWords.BareRoundTrip` | chapter_1/night/src/core/night_conf.c:561-763 | any non-empty list of non-empty words without special bytes, separated by spaces and ended by a semicolon or by a space and a brace, is read back as that list, with the reader behind the terminator and on the same line |
| `ConfWords.QuotesRoundTrip` | chapter_1/night/src/core/night_conf.c:617-675 | any non-empty list of words, whatever their bytes, written in single or in double quotes is read back, ended either way |
| `ConfWords.VariableReads` | chapter_1/night/src/core/night_conf.c:648-668 | neither the brace behind a dollar sign nor the closing one ends a bare word |
| `ConfWords.EscapeReads` | chapter_1/night/src/core/night_conf.c:516-520 | a backslash keeps any byte, blanks and terminators included, from ending the word; with t, n, r it reads as the bytes 9, 10 and 13, with a quote or a backslash as that byte, and with any other byte as both |
| `ConfQuote.UnescapeEscape` | chapter_1/night/src/core/night_conf.c:704-744 | unescaping undoes escaping of backslash and double quote, for every string |
| `ConfQuote.QuotingRoundTrip` | chapter_1/night/src/core/night_conf.c:519-744 | any non-empty list of strings written in double quotes, anywhere in a file, is read back as that list, with the reader resting behind the semicolon and the lines counted, exactly when every escaped word fits the page with the two bytes behind it (one for the last word); otherwise the token is too long |
| `ConfQuote.ShortRendered` | chapter_1/night/src/core/night_conf.c:396-431 | if the reader does not find the rendered words too long, every one of them fits the page |
| `ConfParse.Lookup` | chapter_1/night/src/core/night_conf.c:765-1041 | the directive is accepted exactly when the first command with its name, for the module type of the context and sharing a bit with the context, wants its terminator and takes its number of arguments; a block is entered with the context of that command; the argument table is never indexed out of range |
| `ConfParse.DecideMeans` | chapter_1/night/src/core/night_conf.c:800-941 | the same of the verdict that the parser is described with |
| `ConfParse.FitsIsTakes` | chapter_1/night/src/core/night_conf.c:878-936 | the argument check in terms of single bits: bit 10 any number, 9 one, 11 one or more, 12 two or more, and without these bit n for n arguments |
| `ConfParse.TakesExactly` | chapter_1/night/src/core/night_conf.c:15-25 | a type whose only bit of 0 to 7 is n, and that has none of 9 to 12, takes exactly n arguments |
| `ConfParse.TakesByType` | chapter_1/night/src/core/night_conf.h:13-16 | NOARGS to TAKE3 take exactly so many arguments |
| `ConfParse.TakesMany` | chapter_1/night/src/core/night_conf.h:17-20 | TAKE4 to TAKE7 take exactly so many arguments |
| `ConfParse.TakesByKind` | chapter_1/night/src/core/night_conf.h:22-26 | a flag takes one argument, 1MORE at least one, 2MORE at least two, ANY any number |
| `ConfParse.HasShares` | chapter_1/night/src/core/night_conf.c:839-839 | the mask test holds exactly if the two values have a bit in common |
| `ConfParse.Parser.Handle` | chapter_1/night/src/core/night_conf.c:765-1041 | a block directive saves the context, parses the body and restores it |
| `ConfParse.Parser.Parse` | chapter_1/night/src/core/night_conf.c:166-297 | on every input the parser terminates, restores its context, and computes the recursive description |
| `ConfParse.BodyOnStack` | chapter_1/night/src/event/night_events_module.c:95-105 | parsing a block body by recursion is what a stack machine does until it pops the block |
| `ConfParse.ParseIsStackRun` | chapter_1/night/src/core/night_conf.c:166-297 | the recursive parser computes exactly the run of the stack machine |
| `ConfParse.RunIsBalanced` | chapter_1/night/src/core/night_conf.c:166-248 | a successful run sees a balanced word of braces |
| `ConfParse.ParsedFileIsBalanced` | chapter_1/night/src/core/night_conf.c:166-248 | a file parses only if the block-start and block-end tokens are balanced |
| `ConfParse.SimpleMeansOk` | chapter_1/night/src/core/night_conf.c:853-929 | simple directives end with a semicolon and block directives with a brace |
| `Location.FilenameCmp` | chapter_1/night/src_2025_11_30/core/night_file_name.c:73-109 | the sign of the result is decided by the first difference of the case-folded names; names that differ in case only compare equal, and NUL-free names compare equal only then |
| `Basics.FoldsTogether` | chapter_1/night/src_2025_11_30/tools/night_string.h:6-6 | two bytes fold to the same one exactly when they are equal or the two cases of one ASCII letter |
| `Location.RankOrder` | chapter_1/night/src_2025_11_30/core/night_file_name.c:97-106 | bytes are compared as signed chars, except that the slash comes behind NUL and before every positive byte |
| `Location.DirectoryFirst` | chapter_1/night/src_2025_11_30/core/night_file_name.c:97-106 | what lies in a directory comes directly behind it, before every name that goes on with another positive byte |
| `Location.LessIrreflexive` | chapter_1/night/src_2025_11_30/core/night_file_name.c:73-109 | the order of the comparator is irreflexive on case-folded names |
| `Location.LessTotal` | chapter_1/night/src_2025_11_30/core/night_file_name.c:73-109 | it is total |
| `Location.LessTransitive` | chapter_1/night/src_2025_11_30/core/night_file_name.c:73-109 | it is transitive |
| `Location.NestedSelects` | chapter_1/night/src_2025_11_30/http/night_http_core_module.c:1455-1485 | descending into an inclusive prefix: the best nested match is the best match of the whole tree, the prefix itself being the fallback |
| `Location.EqualSelects` | chapter_1/night/src_2025_11_30/http/night_http_core_module.c:1507-1549 | at a node equal to the URI, the exact entry wins and no prefix can be longer |
| `Location.FindSelects` | chapter_1/night/src_2025_11_30/http/night_http_core_module.c:1381-1558 | the search rule selects the exact location, else the longest inclusive prefix, else none, on every well-formed tree and every URI |
| `Location.SelectsOne` | chapter_1/night/src_2025_11_30/http/night_http_core_module.c:1381-1558 | on a well-formed tree the rule allows one outcome only |
| `Location.OneHit` | chapter_1/night/src_2025_11_30/http/night_http_core_module.c:1381-1558 | of one length, at most one location matches a URI |
| `Location.CaseBlind` | chapter_1/night/src_2025_11_30/http/night_http_core_module.c:1381-1558 | the rule does not see the case of the URI |
| `Location.FindStaticLocation` | chapter_1/night/src_2025_11_30/http/night_http_core_module.c:1381-1558 | the loop returns that selection, which is the only one that the rule allows, for the URI and for every other way to write it in capitals and small letters |
| `NestedLocation.SelectedIsSmaller` | chapter_1/night/src_2025_11_30/http/night_http_core_module.c:1336-1378 | a selected location is nested strictly deeper, so the recursion terminates |
| `NestedLocation.FindLocation` | chapter_1/night/src_2025_11_30/http/night_http_core_module.c:1336-1378 | the recursion follows the rule at every depth; it reports success exactly when it ends in an exact location |
| `Calendar.YearEstimate` | chapter_1/night/src_2025_11_30/core/night_time.c:226-258 | the closed-form year is never low, and at most two days into the next year too high |
| `Calendar.DaysToYearIs` | chapter_1/night/src_2025_11_30/core/night_time.c:238-238 | the leap-year formula equals the sum of the year lengths |
| `Calendar.MonthIsRight` | chapter_1/night/src_2025_11_30/core/night_time.c:264-285 | the month formula finds the month whose days contain the day of the year |
| `Calendar.Gmtime` | chapter_1/night/src_2025_11_30/core/night_time.c:153-294 | the date is a valid Gregorian date with the clamped day number and second exactly when the day number survives its storage in a 32-bit int; no intermediate overflows before the year 5 881 580, nor for stored days down to -1084404 |
| `Calendar.YearOf` | chapter_1/night/src_2025_11_30/core/night_time.c:210-258 | for stored days before the epoch too: the corrected estimate is right from March 1 of year 0 on, and before that the day of the year stays between -3 and 365 |
| `Calendar.WrappedDay` | chapter_1/night/src_2025_11_30/core/night_time.c:173-184 | a time for which the day number wraps, so that the clamp misses it |
| `Calendar.UsualTimesRepresentable` | chapter_1/night/src_2025_11_30/core/night_time.c:173-184 | all times before that year are safe |
| `Calendar.HttpDateFields` | chapter_1/night/src_2025_11_30/core/night_time.c:296-316 | the text has 29 bytes with every field and separator at its place, as IMF-fixdate in section 5.6.7 of RFC 9110 |
| `Calendar.HttpDateReads` | chapter_1/night/src_2025_11_30/core/night_time.c:296-316 | read as decimal numbers, the fields of the text are day, year, hour, minute and second |
| `Calendar.OneMoment` | chapter_1/night/src_2025_11_30/core/night_time.c:153-294 | a day and second have one date and time |
| `Calendar.FirstOfMonth` | chapter_1/night/src_2025_11_30/core/night_time.c:16-18 | the texts of the firsts of the months of 1970, the epoch among them: every weekday and month name |
| `Calendar.RfcExample` | chapter_1/night/src_2025_11_30/core/night_time.c:296-316 | the example date of section 5.6.7 of RFC 9110 |
| `Calendar.LastDayIs` | chapter_1/night/src_2025_11_30/core/night_time.c:179-184 | the clamp is at December 31 of the year 9999 |
| `Calendar.HttpDateIsInjective` | chapter_1/night/src_2025_11_30/core/night_time.c:296-316 | different moments have different texts |
| `Calendar.HttpTime` | chapter_1/night/src_2025_11_30/core/night_time.c:296-316 | the text of a representable time is that of its moment; over all 64-bit times the text has 29 bytes exactly when the stored day is at least -4, or is at least -1084404 and gives weekday 0 |
| `Pool.MemoryPool.constructor` | chapter_1/night/src/core/night_palloc.c:12-43 | a new pool: header, end and limit of small requests |
| `Pool.MemoryPool.CountFailures` | chapter_1/night/src/core/night_palloc.c:163-172 | each tried block fails once more, and `current` moves behind the last that failed too often, never off the chain |
| `Pool.MemoryPool.PallocBlock` | chapter_1/night/src/core/night_palloc.c:135-180 | a fresh block at the end of the chain always has room for a small request, and its first piece is aligned; every block tried has failed once more, and `current` moves behind the last that failed too often |
| `Pool.MemoryPool.PallocSmall` | chapter_1/night/src/core/night_palloc.c:93-133 | the piece comes from the first block that passes the fit test, or from a fresh block, and then the failures are counted; all pieces stay disjoint and inside their blocks |
| `Pool.FitsExactly` | chapter_1/night/src/core/night_palloc.c:106-113 | on pools whose size is a multiple of 8 the unsigned fit test says whether the piece ends in the block |
| `Pool.MemoryPool.Reuse` | chapter_1/night/src/core/night_palloc.c:198-217 | a list node is used again exactly when one of the first five is free, and it is the first of these |
| `Pool.MemoryPool.PallocLarge` | chapter_1/night/src/core/night_palloc.c:182-237 | a large area is handed out whole and recorded exactly once |
| `Pool.MemoryPool.Palloc` | chapter_1/night/src/core/night_palloc.c:65-91 | either path, with alignment as asked for; `night_pnalloc` is the unaligned form |
| `Pool.MemoryPool.Run` | chapter_1/night/src/core/night_palloc.c:65-316 | over any run, each piece is one that the pool handed out in this run, as long as asked for; if the memory that the system would answer each request with is unused and disjoint from the rest, all pieces are pairwise disjoint and lie between a block's header and end or are a large area of their own, and aligned requests get aligned pieces |
| `Pool.MemoryPool.Destroy` | chapter_1/night/src/core/night_palloc.c:239-295 | every block and every large area is freed, and each exactly once |
| `Pool.BumpSafe` | chapter_1/night/src/core/night_palloc.c:113-118 | moving a bump pointer within its block keeps all pieces disjoint |
| `Pool.NewBlockSafe` | chapter_1/night/src/core/night_palloc.c:145-174 | adding a block keeps all pieces disjoint |
| `Pool.Overrun` | chapter_1/night/src/core/night_palloc.c:106-118 | for every pool size that is not a multiple of 8, a run whose aligned request returns memory past the end of the block |
| `PoolArray.Array.Grow` | chapter_1/night/src/core/night_array.c:61-95 | the array grows in place exactly when it ends at the first block's bump pointer and one element more fits; then only that pointer moves; otherwise the elements move to twice the memory; no other piece is touched |
| `PoolArray.Array.Push` | chapter_1/night/src/core/night_array.c:51-104 | the new slot lies in the array's own memory exactly when there was room, the array grew in place, or it had something to double |
| `PoolArray.Array.PushElement` | chapter_1/night/src/core/night_array.c:51-104 | pushing and filling the slot appends to the sequence of elements, on both growth paths, and writes nothing outside the array |
| `PoolArray.Array.Neighbour` | chapter_1/night/src/core/night_palloc.c:65-91 | a later request from the same pool never overlaps the array |
| `PoolArray.LostSlot` | chapter_1/night/src/core/night_array.c:51-104 | an array made for no elements, followed by another request: the first push returns a slot that is not its own |
| `HashTable.KeyLc` | chapter_1/night/src_2025_11_30/core/night_hash.c:115-131 | the sum of the signed lower-case bytes times powers of 31, modulo 2^64 |
| `HashTable.HashIsWeighted` | chapter_1/night/src_2025_11_30/core/night_hash.h:5-5 | the hash in closed form, for every string of bytes |
| `HashTable.KeyOfAb` | chapter_1/night/src_2025_11_30/core/night_hash.h:5-5 | the key of "Ab" is 3105 |
| `HashTable.StrLow` | chapter_1/night/src_2025_11_30/core/night_hash.c:432-451 | the copy has no capitals and differs from the source in case only; the key is its hash |
| `HashTable.ExtensionHash` | chapter_1/night/src_2025_11_30/http/night_http_core_module.c:1875-1911 | copied or not, the extension ends up without capitals, different in case only, with the hash that the table was built with |
| `HashTable.BucketIsRemainder` | chapter_1/night/src_2025_11_30/core/night_hash.c:58-58 | the bucket number is the remainder by the table size, which is what the code computes |
| `HashTable.FirstMatch` | chapter_1/night/src_2025_11_30/core/night_hash.c:58-112 | the linear scan: the value of the first key that matches, none if there is none |
| `HashTable.OwnBucket` | chapter_1/night/src_2025_11_30/core/night_hash.c:58-112 | looking only into the name's own bucket finds what a linear scan over all keys finds |
| `HashBuild.Count` | chapter_1/night/src_2025_11_30/core/night_hash.c:217-245 | the counting loop succeeds exactly when every key passes the limit with its bucket's counter, and then each 16-bit counter is its bucket's load modulo 65536; for every key list and limit |
| `HashBuild.ChooseSize` | chapter_1/night/src_2025_11_30/core/night_hash.c:208-256 | the least size from the estimate on with which all keys pass, else the largest |
| `HashBuild.Total` | chapter_1/night/src_2025_11_30/core/night_hash.c:293-307 | the allocation is the sum of the counters as they are after wrapping, without those that look like empty buckets; the rounding changes none |
| `HashBuild.Lay` | chapter_1/night/src_2025_11_30/core/night_hash.c:349-361 | the buckets lie one behind the other |
| `HashBuild.Fill` | chapter_1/night/src_2025_11_30/core/night_hash.c:363-386 | every element is written inside its bucket, in order and without overlap |
| `HashBuild.Close` | chapter_1/night/src_2025_11_30/core/night_hash.c:388-399 | every bucket is closed by a null pointer behind its last element |
| `HashBuild.Init` | chapter_1/night/src_2025_11_30/core/night_hash.c:133-404 | for every key list and all sizes: when the build refuses, when it divides by zero, and otherwise the table holds the keys, inside the allocated bytes, exactly when every bucket with its terminator can be counted in 16 bits; if not, it goes on with too little memory |
| `HashBuild.PassesIsFits` | chapter_1/night/src_2025_11_30/core/night_hash.c:217-291 | below a limit of 64K the counting loop bounds the true loads, and above it the loads fit exactly when it passes and no counter wraps |
| `HashBuild.PassesAgain` | chapter_1/night/src_2025_11_30/core/night_hash.c:262-291 | a size that passes the first count never fails the final one, wrapped or not |
| `HashBuild.BuildableByLoad` | chapter_1/night/src_2025_11_30/core/night_hash.c:200-291 | on pages below 64K the build is refused exactly by the true loads: no size from the estimate on fits the buckets, and the largest does not fit a page |
| `HashBuild.EnoughExactlyWhen` | chapter_1/night/src_2025_11_30/core/night_hash.c:293-345 | for every key list and size, the bytes allocated are the bytes that the buckets take if and only if no bucket with its terminator passes 16 bits; otherwise they are fewer |
| `HashBuild.SmallPagesSuffice` | chapter_1/night/src_2025_11_30/core/night_hash.c:276-345 | on pages below 64K what passes the final count has all its memory |
| `HashBuild.OneLongKey` | chapter_1/night/src_2025_11_30/core/night_hash.c:172-345 | one key of 65518 bytes with buckets and pages of 65536 passes every test; nothing is allocated for an element of 65528 bytes |
| `HashBuild.Stride` | chapter_1/night/src_2025_11_30/core/night_hash.h:10-11 | the stride of the search equals the element size of the build |
| `HashBuild.Walk` | chapter_1/night/src_2025_11_30/core/night_hash.c:68-112 | the walk through a bucket finds the value of the first item with the name |
| `HashBuild.Find` | chapter_1/night/src_2025_11_30/core/night_hash.c:12-113 | a find with a lower-case key and its hash on a built table gives the value of the first key with that name, and null exactly if there is none |
| `Queue.LinkQueue.Remove` | chapter_1/night/src_2025_11_30/core/night_queue.h:32-34 | removing an element keeps the ring well linked and takes exactly it out |
| `Queue.LinkQueue.InsertAfter` | chapter_1/night/src_2025_11_30/core/night_queue.h:36-42 | inserting keeps the ring well linked and puts the element at its place |
| `Queue.LinkQueue.SearchBack` | chapter_1/night/src_2025_11_30/core/night_queue.c:27-36 | the inner loop stops behind the last element that is not after the new one |
| `Queue.LinkQueue.Sort` | chapter_1/night/src_2025_11_30/core/night_queue.c:4-40 | the relinking loop computes insertion sort on the ring; for a total preorder that is a sorted, stable permutation |
| `Queue.SortIsStable` | chapter_1/night/src_2025_11_30/core/night_queue.c:4-40 | for every total preorder the result is a sorted, stable permutation |
| `Queue.LinkQueue.Middle` | chapter_1/night/src_2025_11_30/core/night_queue.c:42-77 | the element at index n/2, or the sentinel of an empty queue |
| `Connections.Thread` | chapter_1/night/src_2025_11_30/event/night_event_core_module.c:262-281 | the initial free list holds every connection once, in ascending order |
| `Connections.Cycle.Reusable` | chapter_1/night/src_2025_11_30/core/night_connection.c:213-248 | the flag, the queue and the counter change together, and the connection goes to the head |
| `Connections.Cycle.Close` | chapter_1/night/src_2025_11_30/core/night_connection.c:157-211 | a leased connection goes back to the free list, leaves the queue and the descriptor table; closing twice does nothing |
| `Connections.Cycle.Drain` | chapter_1/night/src_2025_11_30/core/night_connection.c:99-155 | nothing changes if more than a sixteenth is free or nothing is reusable; otherwise the connections at the end of the queue are asked, one after the other; if they close, exactly the last n of the queue are closed, from the end on, n being an eighth of its length held between 1 and 8, and come to the head of the free list |
| `Connections.DrainedClosing` | chapter_1/night/src_2025_11_30/core/night_connection.c:108-146 | the same of the description that a run is followed with |
| `Connections.DrainedWithin` | chapter_1/night/src_2025_11_30/core/night_connection.c:134-154 | whatever the handlers answer, only connections of the queue are closed, and none joins it |
| `Connections.Batch` | chapter_1/night/src_2025_11_30/core/night_connection.c:120-129 | how many connections are asked: an eighth of the queue, at least one and at most eight |
| `Connections.Cycle.Get` | chapter_1/night/src_2025_11_30/core/night_connection.c:9-81 | the lease is the head of the free list after draining, with the opposite instance bit; descriptors, queue, free list and descriptor table are those of draining and lending; if handlers close, a valid descriptor is refused exactly when nothing is free or reusable, and with nothing free the lease is the n-th connection from the end of the queue |
| `Connections.Cycle.Run` | chapter_1/night/src_2025_11_30/core/night_connection.c:9-248 | over any run the free list stays duplicate-free and as long as its counter, free and leased connections partition the array, each operation leads from one state of descriptors, queue, leases and free list to exactly the next, the log has one entry per lease, in order, and as many for each connection as its lease count grew by; two successive leases of one connection have opposite instance bits |
| `Connections.FlaggedCount` | chapter_1/night/src_2025_11_30/core/night_connection.c:213-248 | the reusable queue is as long as there are flagged connections |
| `Processes.Table.Spawn` | chapter_1/night/src_2025_11_30/core/night_process.c:27-41 | a child gets the first free slot, and a full table makes none |
| `Processes.Table.GetStatus` | chapter_1/night/src_2025_11_30/core/night_process.c:174-240 | exactly the first slot of each pid that waitpid answers is marked, in whatever order they are answered |
| `Processes.MarkedAllIs` | chapter_1/night/src_2025_11_30/core/night_process.c:174-240 | the same of the description that the master is modelled with |
| `Processes.Table.Reap` | chapter_1/night/src_2025_11_30/core/night_process.c:331-393 | exactly the slots of exited children are cleared, and the result says whether another child is left |
| `MasterTable.PassIsReap` | chapter_1/night/src_2025_11_30/core/night_process.c:331-393 | the steps of a reaping pass that nothing interrupts have the effect of the whole loop, and find a live child exactly if it does |
| `MasterTable.ForkIsSpawn` | chapter_1/night/src_2025_11_30/core/night_process.c:27-169 | a fork whose record nothing interrupts takes the slot that the spawn takes |
| `MasterTable.HandlerIsGetStatus` | chapter_1/night/src_2025_11_30/core/night_signal.c:83-127 | the handler marks the first slot of each child that has terminated, sets the flag and wakes the master |
| `Master.StepKeeps` | chapter_1/night/src_2025_11_30/core/night_process_cycle.c:110-155 | every step of the master, of a child or of a signal handler keeps the invariant: each running child has a slot with a clear exit mark |
| `Master.ChildSignalKeeps` | chapter_1/night/src_2025_11_30/core/night_signal.c:83-127 | the handler may run between any two steps of the master, also inside the reaping pass |
| `Master.GoneMeansAllTerminated` | chapter_1/night/src_2025_11_30/core/night_process_cycle.c:110-155 | in every interleaving from the first fork on, the master is gone only when every child has terminated |
| `MasterSlots.RunningHasSlot` | chapter_1/night/src_2025_11_30/core/night_process.c:154-169 | a running child that has been recorded always has a slot below the bound whose exit mark is clear |
| `MasterSlots.SingleExactlyWhen` | chapter_1/night/src_2025_11_30/core/night_process.c:117-169 | over every run, each recorded running child has exactly one slot in every state, exactly when no fork answers a pid still in the table whose child is still running when it is recorded |
| `MasterSlots.DoubleReachable` | chapter_1/night/src_2025_11_30/core/night_process.c:117-169 | a run in which a reused pid leaves a running child in two slots |
| `MasterStop.StopsExactlyWhen` | chapter_1/night/src_2025_11_30/core/night_process_cycle.c:110-155 | for every state after the children are forked, some run ends with the master gone exactly when no slot waits for an exit that can no longer be noticed and a reaping pass is still to come |
| `MasterStop.RunStopsExactlyWhen` | chapter_1/night/src_2025_11_30/core/night_process_cycle.c:110-155 | the same for every state of every run from the start |
| `MasterStop.BeforeStep` | chapter_1/night/src_2025_11_30/core/night_process.c:174-240 | no step, of the master, a child or a handler, makes a state stoppable that was not |
| `MasterStop.Progress` | chapter_1/night/src_2025_11_30/core/night_process_cycle.c:110-155 | from every stoppable state some step leads to another that is closer to the end |
| `MasterStop.DeafForever` | chapter_1/night/src_2025_11_30/core/night_process_cycle.c:123-138 | if all children are gone and the flag is used up, no run stops the master |
| `MasterStop.DeafAfterPass` | chapter_1/night/src_2025_11_30/core/night_process_cycle.c:123-138 | a pass that finds nothing alive before a stop signal leads there |
| `MasterStop.DeafReachable` | chapter_1/night/src_2025_11_30/core/night_process_cycle.c:110-155 | a run that gets there: the only worker dies before the stop signal |
| `MasterStop.LostReachable` | chapter_1/night/src_2025_11_30/core/night_process.c:117-168 | a run after which the master cannot be stopped while a child runs: another child is collected between its fork and its record |
| `Buffers.AllSentStream` | chapter_1/night/src_2025_11_30/core/night_buf.c:55-103 | marking n bytes leaves exactly the byte stream without its first n bytes |
| `Buffers.Chains.UpdateSent` | chapter_1/night/src_2025_11_30/core/night_buf.c:55-103 | the loop does that; all links before the returned one are empty, and the returned one is where the sent bytes end |
| `Buffers.Chains.Join` | chapter_1/night/src_2025_11_30/core/night_buf.c:116-146 | the out list is appended to the busy list |
| `Buffers.Chains.UpdateChains` | chapter_1/night/src_2025_11_30/core/night_buf.c:108-181 | the links are conserved across the four lists; up to the first link that waits, those with another tag go to the pool and those with the tag, all of them sent, to the free list, the last one first, with their buffers reset and all others unchanged |
| `Buffers.Recycle` | chapter_1/night/src_2025_11_30/core/night_buf.c:148-180 | the busy list is left empty or headed by a non-empty buffer with the tag, and no link is lost or doubled |
| `Buffers.RecycleIs` | chapter_1/night/src_2025_11_30/core/night_buf.c:148-180 | the same of the description: where the loop stops and which links are on which list, in which order |
| `Modules.Cycle.CtxIndex` | chapter_1/night/src/core/night_modules.c:16-83 | the least index from the candidate on that no module of the type has, in either cycle; the restarts terminate |
| `Modules.Cycle.CountModules` | chapter_1/night/src/core/night_modules.c:134-233 | every module of the type has an index below the result, which is one more than the largest index in either cycle; set indices and other types are left alone, new indices avoid the previous cycle's and leave no smaller one free, and the indices are distinct exactly when those set before were |

## Left out

- Sockets, epoll, fork, file opening and the delivery of signals: only their outcomes appear, as inputs.
- `night_output_chain`, the HTTP phase engine, request parsing, header filters and the per-module handlers: unfinished or without a clean rule to prove.
- Failures of the system's allocator: the code returns early; the model's requests succeed.
- Cleanup handlers of the pool, `night_pcalloc` and `night_array_create`: easy additions.
- `size_t` overflow in the pool and in the array's size products.
- Buffers shared by two links of a chain.
- Timers, posted events and event deregistration inside `night_close_connection`, and `night_close_idle_connections`: they do not touch the pool's lists.
- `night_reusable_connection` with an argument other than 0 and 1, and on a connection that is not leased.
- Deadline expiry and the worker's event loop.
- SIGINT, which has no entry in the table of handlers and ends the master by its default action during sigsuspend.
- The order of the children's exits within one run of the SIGCHLD handler: a handler run collects all that has terminated.
- A child that exits while the handler runs, is collected by it and leaves SIGCHLD pending: the second handler run, which follows at once, finds nothing and sets the reap flag again. The model merges it into the first, so that one idle reaping pass is missing from it.
- HashBuild.Init: says nothing of the memory after a build that is `Cramped`, which writes over its own elements or past the allocation.
- `night_queue_split` and `night_queue_add`: easy additions.
- The tables' dump loops, and the wildcard form of the hash.
- The local-time and cached-time slots of `night_time.c`.
- Timers.EventTimers.FindTimer: says nothing of the least deadline once one was stored outside the window of those armed, since the tree's order is then lost.
- HashBuild.Find: needs non-null values, since a null value ends the walk through a bucket.
- Connections.Cycle.Get: the descriptor table keeps an entry that is already taken, as the source does, so that a descriptor leased twice is filed only once.
