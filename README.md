# Autocompletar: a verified model of the word dictionary and its key loop

`main.c` is a terminal autocompleter with a delete mode. It keeps a dictionary
of words in an unbalanced binary search tree ordered by `strcmp`, and mirrors
that tree in the file `dicionario.dat`, one word per line. An event loop reads
keys:

- a printable key extends the prefix `prefixo`; typing `:d` switches on delete mode;
- Tab cycles through the dictionary words that start with the prefix, in pre-order, at most 100 of them;
- space confirms the word presented last;
- Enter adds the prefix to the dictionary, or in delete mode removes it. `#` ends the loop;
- ESC cancels;
- Backspace erases one character.

The model has five modules.

- `Words` (`words.dfy`): words as `seq<char>`. `strcmp` becomes `Compare`, and the `strncmp` prefix test becomes `StartsWith`. It proves that the resulting order is antisymmetric, total and transitive.
- `Bst` (`bst.dfy`): the tree as a datatype. Insert, minimum, remove, in-order listing and the capped pre-order prefix search follow the C functions branch for branch. It proves:
  - the search-tree invariant is preserved;
  - the key-set effect of each operation;
  - soundness and completeness of the prefix search;
  - in-order listing of a search tree is strictly increasing.
- `Nodes` (`nodes.dfy`): the C functions on heap nodes (`class Node`) changed in place. Each node carries its value tree and its footprint as ghost state. Every method is proved to compute the `Bst` function it implements.
- `WordStore` (`store.dfy`): the file as a list of lines. Appending, and rewriting without a word, have explicit outcomes for failed file operations. It proves the copy loop of the rewrite and that file and tree stay in agreement.
- `Session` (`session.dfy`): the state of `main`'s loop as a `class Session` with the C variables as fields:
  - `prefixo` is a 100-character array and `cursorPos` its write position;
  - `resultados`/`count` cache the search, and `currentIndex` is the cycling index;
  - the other fields are `palavra`, `modoExclusao`, the tree root and the store.

  One method per key keeps the invariant `Valid()`:
  - the buffer is a NUL-terminated string of printable characters without `:d`, of length `cursorPos`;
  - a non-empty cache is exactly the capped prefix search for the current buffer and tree;
  - `palavra` is the completion presented last;
  - the tree is a search tree.

  Enter is specified by the pure function `EnterEffect`. While every file operation completes, the file read back holds exactly the non-empty words of the tree, provided the file ends with a newline when the session starts (see Left out).
- `TabAsWritten` (`aswritten.dfy`): the buffer at the level of its 100 cells, to exhibit the defect listed under Findings.

Two behaviours of main.c a reader might not expect:

- A failed file operation does not stop the tree from changing. main.c inserts into or removes from the tree whatever `adicionarPalavraArquivo` or `removerPalavraArquivo` managed to do (main.c:258-259, 273-274). `EnterEffect` does the same. `EnterFailedAppendDiverges` shows that the tree then holds a word that the file does not.
- In insert mode, Enter on an empty buffer inserts the empty word into the tree and writes an empty line. `fscanf("%s")` skips that line when the file is read back, so file/tree agreement is stated for the non-empty words of the tree.

## Model

| member | source | states |
|---|---|---|
| Words.Compare | main.c:39 | strcmp's sign: the result is -1, 0 or 1, and it is 0 exactly when the two words are equal |
| Words.CompareAntisymmetric | main.c:39-44 | swapping the arguments of strcmp negates the result |
| Words.LessTotal | main.c:39-44 | a word is never below itself; of two distinct words exactly one is below the other |
| Words.LessTransitive | main.c:39-44 | the strcmp order is transitive |
| Words.StartsWith | main.c:51 | the strncmp prefix test: w begins with all of p. Its properties are Words.PrefixNotLess and Bst.MatchesMembers |
| Words.PrefixNotLess | main.c:51 | a fact relating the two comparisons on their own, used by no other member: a word that passes the strncmp test for p is never strcmp-below p, and is p when it is no longer |
| Bst.Insert | main.c:33-45 | the tree after insertion holds exactly the old words plus w |
| Bst.InsertOrdered | main.c:33-45 | insertion into a search tree gives a search tree |
| Bst.InsertPresent | main.c:39-44 | inserting a word already in a search tree returns the same tree (the cmp == 0 branch does nothing) |
| Bst.InsertAll | main.c:193-196 | the words of a list inserted one after the other, in order. Bst.InsertAllKeys and Bst.StartupCompletionOrder state its properties |
| Bst.InsertAllKeys | main.c:193-196 | inserting a list of words into a search tree gives a search tree holding the old words and those of the list |
| Bst.StartupCompletionOrder | main.c:193-196 | inserting "cat", "car", "dog" in that order makes "cat" the root, with "car" on its left and "dog" on its right, so the capped search for "ca" gives "cat" before "car" |
| Bst.Min | main.c:141-144 | the minimum of a non-empty tree is one of its words |
| Bst.MinIsLeast | main.c:141-144 | in a search tree the minimum is strcmp-below every other word |
| Bst.MinFirstInOrder | main.c:175-181 | the minimum is the first word of the in-order listing |
| Bst.RemoveCorrect | main.c:147-172 | removal from a search tree, including the two-child successor case, gives a search tree holding the old words minus w |
| Bst.Remove | main.c:147-172 | removal never adds a word, and a word the tree does not hold leaves it unchanged; on a search tree its full effect is Bst.RemoveCorrect |
| Bst.InOrder | main.c:175-181 | the in-order listing holds exactly the words of the tree; Bst.OrderedIffSorted and Bst.MinFirstInOrder give its order |
| Bst.OrderedIffSorted | main.c:175-181 | a tree is a search tree exactly when its in-order listing is strictly increasing |
| Bst.MatchesMembers | main.c:48-59 | the pre-order matches are exactly the words of the tree that start with the prefix |
| Bst.Search | main.c:48-59 | buscarPrefixo as written, branch for branch. Bst.SearchIsCappedMatches states what it computes, and Bst.PrefixSearch what that means for the Tab key |
| Bst.SearchIsCappedMatches | main.c:48-59 | the search appends to the results found so far the first (cap minus their count) pre-order matches |
| Bst.PrefixSearch | main.c:48-59 | a search from an empty array reports: a prefix of the pre-order matches; min(cap, matches) words; only words of the tree with the prefix; every such word when the cap is not reached |
| Nodes.Node.constructor | main.c:24-30 | criarNo: a fresh leaf node holding the word |
| Nodes.PalavraExiste | main.c:127-138 | true only for a word of the tree; on a search tree, true exactly for the words of the tree |
| Nodes.Minimum | main.c:141-144 | the pointer walk ends on a node of the subtree whose word is the tree's minimum |
| Nodes.Insert | main.c:33-45 | the node structure afterwards is the value tree Bst.Insert computes; an existing root stays the root; only new nodes join the footprint |
| Nodes.InsertBelow | main.c:39-44 | the descent at a node turns its subtree into Bst.Insert of it, in place |
| Nodes.Remove | main.c:147-172 | the returned root's structure is the value tree Bst.Remove computes, using only nodes that were already there |
| Nodes.RemoveRoot | main.c:155-169 | removing a node's own word: the returned subtree is Bst.Remove of the old subtree for that word |
| Nodes.SearchPrefix | main.c:48-59 | the array prefix up to the new count is Bst.Search of the old prefix; the count grows, stays within the array and, starting below the cap, stays within the cap; cells past it are untouched |
| Nodes.WriteInOrder | main.c:175-181 | the lines written are the in-order listing of the tree, after the lines already there |
| WordStore.CopyExcept | main.c:105-110 | the temporary file receives the words read, in order, without the exact matches of the removed word |
| WordStore.WithoutConcat | main.c:105-110 | filtering distributes over concatenation, so the kept words keep their order |
| WordStore.WithoutCounts | main.c:105-110 | no copy of the removed word survives, and every other word keeps its number of occurrences |
| WordStore.WithoutMembers | main.c:105-110 | a word survives filtering exactly when it was there and differs from the removed word |
| WordStore.WithoutAbsent | main.c:105-110 | filtering out a word that does not occur changes nothing |
| WordStore.Append | main.c:71-88 | adicionarPalavraArquivo: a missing file stays missing; a failed open or write leaves the file as it was; once completed, the words read back are the old ones plus w, unless w is empty |
| WordStore.Rewrite | main.c:91-124 | removerPalavraArquivo: a failure before the file is replaced leaves it as it was; once completed, the words read back are the old ones except w; after a copy that fails partway, the file is a prefix of what the completed rewrite would have written |
| WordStore.FailedCopyLosesWords | main.c:105-120 | a copy that fails after one line still replaces the file: deleting "car" from "cat", "car", "dog" leaves only "cat", losing "dog" |
| WordStore.AppendTokens | main.c:81 | after an append, the words read back are the old ones plus the appended word, if it is non-empty |
| WordStore.RewriteTokens | main.c:105-123 | after a completed rewrite, the words read back are the old ones except the removed word |
| WordStore.AgreeAfterAppend | main.c:71-88 | a completed append keeps file and key set in agreement when the word is added to the set |
| WordStore.AgreeAfterRewrite | main.c:91-124 | a completed rewrite keeps file and key set in agreement when the word is removed from the set |
| Session.AfterType | main.c:304-325 | the text after a printable key is a prefix of the old text with the character appended, and never outgrows the array; Session.TypeEffect gives each case |
| Session.TypeEffect | main.c:304-325 | a printable key keeps the text within 99 characters and free of ":d"; it appends the character, or cuts a completed ":d", or does nothing on a full buffer |
| Session.EnterEffect | main.c:251-283 | Enter on a text w other than "#": the report names w; tree and file change only when it says w was added or removed; insert mode makes the words the old ones plus w; delete mode adds none. Session.EnterKeys and Session.EnterKeepsAgreement give the rest |
| Session.EnterKeys | main.c:251-283 | Enter keeps the tree a search tree; its words become the old ones minus w (delete mode) or plus w (insert mode) whatever the file outcome; a failure before replacing leaves the file as it was |
| Session.EnterKeepsAgreement | main.c:256-283 | when the file operation completes, Enter keeps the file in agreement with the tree |
| Session.EnterFailedAppendDiverges | main.c:270-276 | a failed append of a new non-empty word leaves the file unchanged while the tree gains the word, so the two disagree |
| Session.Load | main.c:193-196 | the start-up loop builds exactly the tree Bst.InsertAll gives for the words in file order, a search tree holding exactly the words read |
| Session.Session.constructor | main.c:185-214 | start-up from an existing file: valid state, the tree is the one built by inserting the file's words in file order (Bst.InsertAll), so it holds exactly those words, file and tree agree, empty buffer, no cached search, insert mode |
| Session.Session.Reset | main.c:287-290 | memset and resets: empty buffer with cursorPos 0, no cached search, the invariant holds, tree and file unchanged |
| Session.Session.Type | main.c:304-325 | a printable key changes the text as AfterType says. Delete mode switches on exactly when ":d" is completed. count and currentIndex reset when the character is stored. The invariant holds, including cursorPos == strlen(prefixo) |
| Session.Session.Put | main.c:305-316 | stores the character and a terminator when strlen < 99 and clears the cache; otherwise changes nothing |
| Session.Session.CutTrigger | main.c:318-325 | a text ending in ":d" loses those two characters and delete mode switches on; any other text is left alone |
| Session.Session.Erase | main.c:326-336 | Backspace drops the last character and clears the cache; on an empty buffer it changes nothing; the invariant holds |
| Session.Session.Cycle | main.c:219-237 | Tab on a non-empty buffer searches when nothing is cached. It then presents the completion at currentIndex and advances currentIndex modulo count. The text and the tree are unchanged |
| Session.Session.Lookup | main.c:221-224 | the cache becomes the capped prefix search for the current text and tree |
| Session.Session.Present | main.c:226-236 | palavra becomes the cached completion at currentIndex, which advances cyclically |
| Session.Session.Confirm | main.c:238-250 | space with a presented completion selects palavra, a tree word starting with the typed text, and starts a fresh entry; otherwise nothing changes |
| Session.Session.Cancel | main.c:292-303 | ESC starts a fresh entry and leaves delete mode |
| Session.Session.AppendToFile | main.c:71-88 | the store becomes Append of the old store |
| Session.Session.RemoveFromFile | main.c:91-124 | the store becomes Rewrite of the old store |
| Session.Session.Commit | main.c:251-291 | "#" stops the loop and changes nothing else. Any other text changes tree, file and report as EnterEffect says, leaves delete mode and starts a fresh entry. Completed file operations keep file and tree in agreement |
| Session.Session.CommitWord | main.c:256-290 | a text other than "#": tree, file and report as EnterEffect says for the current mode; delete mode ends, the buffer and completions are cleared; a completed file operation keeps file and tree in agreement |
| Session.Session.DeleteWord | main.c:256-269 | delete mode: tree, file and report as EnterEffect says for delete mode |
| Session.Session.AddWord | main.c:270-283 | insert mode: tree, file and report as EnterEffect says for insert mode |
| Session.Session.InsertIntoTree | main.c:274 | the tree becomes Bst.Insert of the old tree and stays a search tree |
| Session.Session.RemoveFromTree | main.c:259 | the tree becomes Bst.Remove of the old tree and stays a search tree |
| Session.Session.Step | main.c:216-337 | one key keeps the invariant; the loop stops exactly on Enter with "#"; only Enter changes tree or file; completed file operations keep them in agreement. Per key: a printable key changes the text as AfterType says and sets delete mode on ":d"; Backspace drops the last character; Tab presents the next capped prefix-search completion; space selects the presented word and clears the entry; ESC clears the entry and delete mode; Enter on "#" changes nothing but stops the loop; Enter on other text follows EnterEffect; any other key changes nothing |
| Session.Session.Run | main.c:216-218 | the loop over a key sequence keeps the invariant; it stops early only when "#" is committed; file and tree agree at the end when every file operation completed |
| TabAsWritten.StrLen | main.c:305 | strlen: all characters before the result are non-NUL, and the character at the result, if any, is NUL |
| TabAsWritten.TypeAsWritten | main.c:304-325 | a printable key on the raw cells either writes outside the array or leaves a well-formed buffer |
| TabAsWritten.TabMovesCursor | main.c:231 | Tab as written: the string is unchanged and cursorPos becomes the presented word's length |
| TabAsWritten.TabDesyncs | main.c:231 | as written, Tab with a longer completion leaves cursorPos past the end of the unchanged string |
| TabAsWritten.DesyncedTypeIsLost | main.c:305-325 | as written, once cursorPos is past the string's end, a printable key writes outside the array or leaves the text unchanged |
| TabAsWritten.DesyncedTypeOverflows | main.c:305-307 | as written, a key typed with cursorPos at 99 over a shorter string writes outside the array |
| TabAsWritten.TabThenTypeLosesKey | main.c:219-237 | as written, "ca", then Tab presenting "cat", then 's' leaves the text "ca" |
| TabAsWritten.SyncedTypeIsSafe | main.c:304-325 | with cursorPos == strlen, a printable key never writes outside the array, keeps cursorPos == strlen, and changes the text as Session.AfterType says |

## Left out

- Screen output (`initscr`, `move`, `printw`, `clrtoeol`, `refresh`, `clear`, `endwin`) and the row counter `linhaAtual` are not modelled. Each key instead yields a `Report` naming the message it would print.
- Key codes and `isprint`: keys arrive as the datatype `Key`. Printable means `!` to `~`. Space, Tab, Enter, ESC and Backspace are their own constructors. Other codes are ignored, as the loop ignores them.
- Files: `fopen`, `fseek`, `fprintf`, `fclose`, `remove` and `rename` become effects on a `Store` of lines. Their failures become the `FileOutcome` parameter. A copy into the temporary file that fails partway (main.c:108 and 113 ignore the results of `fprintf` and `fclose`) is `FailedMidCopy`: the file is still replaced, by the whole lines written, and words other than the removed one are lost. A line cut in the middle by that failure is not modelled. Their error messages are not modelled.
- The word file is assumed to end with a newline when the session starts. main.c:79-81 appends "w\n" at the end of the file, so after a last line without a newline, the appended word joins that line ("dog" and "fish" read back as "dogfish"). `WordStore.Append` always adds a separate line, so `WordStore.AgreeAfterAppend`, `Session.EnterKeepsAgreement` and the agreement clauses of `Session.Session.Commit`, `Step` and `Run` hold only for such files.
- `fscanf("%s")` tokenising: a line is one word, and an empty line yields none. Words never contain white space, because the buffer accepts only printable non-space characters.
- `main` returning 1 when `dicionario.dat` is missing at start-up: `Session.Session.constructor` models only the start from an existing file.
- `malloc`, `free` and `liberarArvore`: removed nodes are simply no longer reachable.
- The `strcpy` of words longer than 99 characters from the file into 100-byte buffers: words are unbounded sequences.
- `resultados` holds node pointers in main.c. Here it holds the words of those nodes. Nothing changes the tree while results are cached, so the two are the same.
- Session.Session.Cycle models the corrected Tab: it leaves `cursorPos` where it is. main.c's Tab is modelled separately in `TabAsWritten`, as the Findings below describe.
- TabAsWritten.TypeAsWritten: does not track the delete-mode flag that cutting ":d" sets, because the finding concerns only the buffer.

## Findings

| source | as written | input that shows it | evidently intended | confidence | as-written member | corrected member |
|---|---|---|---|---|---|---|
| main.c:231 | Tab sets `cursorPos = strlen(palavra)` but leaves `prefixo` holding the typed text, so `cursorPos` runs past the string's terminator and later printable keys are stored where the string never reaches | type "ca" with "cat" in the dictionary, press Tab, type 's', press Enter: the text is still "ca" and "ca" is added to the dictionary | `cursorPos` stays equal to `strlen(prefixo)`, as every other key keeps it, so each typed key extends the text | not executed | TabAsWritten.TabThenTypeLosesKey | Session.Session.Cycle |
| main.c:305-307 | after such a Tab with a 99-character completion of a shorter text, the next printable key passes the `strlen(prefixo) < 99` test and writes the terminator at `prefixo[100]`, one past the array | a dictionary word of 99 characters starting with "c", type "c", Tab, then any printable key | the write position never exceeds 98 when a character is stored (TabAsWritten.SyncedTypeIsSafe proves this for buffers with `cursorPos == strlen`) | not executed | TabAsWritten.DesyncedTypeOverflows | Session.Session.Cycle |
