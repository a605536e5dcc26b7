# i3-scratchmenu, modelled in Dafny

i3-scratchmenu is a picker for the i3 window manager's scratchpad. It asks i3
for its window tree and finds the node named `__i3_scratch`. It flattens that
node into its leaves, sorts them by name, keeps the window containers (type
`con`) and numbers them `1:<title>`, `2:<title>`, … (an untitled window shows
`<No title>`). It writes one label per line to a chooser program (`dmenu` by
default) and trims the chooser's answer. An empty answer means the user
cancelled. Otherwise the answer must be one of the labels exactly, and i3 is
told `[id=N] scratchpad show; [id=N] floating disable` for that window.

The model follows the program's stages, one module each:

| module | file | what it holds |
|---|---|---|
| `Types` | types.dfy | `Option`, `Result`, `u64`, the fatal conditions, the run's outcome |
| `Decimal` | decimal.dfy | decimal rendering of numbers (`{}` in `format!`) and reading it back |
| `Tree` | tree.dfy | the tree reply, its normalised form, flattening into leaves, the name search |
| `NameOrder` | name_order.dfy | `Option::cmp` on names: `None` first, then strings in lexicographic order |
| `Selector` | selector.dfy | the in-place sort, the `con` filter, numbering into labelled entries |
| `Chooser` | chooser.dfy | the chooser's input text, trimming its answer, looking the answer up |
| `Dispatch` | dispatch.dfy | the i3 command that reveals a window |
| `Scratchmenu` | scratchmenu.dfy | the decision on the answer, and one whole run |

The program's input and output are parameters of `Scratchmenu.Run`. It takes
the already decoded tree and the chooser as a function from the text it is
given to the text it answers. It returns how the run ends: it failed on one of
the three `unwrap`s the model keeps (lines 79, 87 and 125 of `src/main.rs`),
the user cancelled, or it produced the command for i3.
Flattening and writing the chooser's input are loops in the program, so they
are methods with loops here (`Tree.IntoLeaves`, `Chooser.ChooserInput`), each
proved equal to a recursive definition. The sort works in place on the
program's vector, so it is an in-place sort on an `array`
(`Selector.SortByName`). The program does not say which algorithm it uses, so
the model uses an insertion sort.

## Model

| member | source | states |
|---|---|---|
| Tree.FromTree | src/main.rs:27-38 | the node keeps its window id, type and name; its children are the converted regular children followed by the converted floating children, in order |
| Tree.Leaves | src/main.rs:41-56 | a node flattens to at least one leaf |
| Tree.LeavesAll | src/main.rs:49-53 | flattening a list of children yields at least one leaf per child |
| Tree.LeavesAllAppend | src/main.rs:50-52 | flattening the children one after another appends their leaves in child order |
| Tree.IntoLeaves | src/main.rs:41-56 | the loop that appends each child's leaves returns exactly the node's leaves |
| Tree.LeavesInDocumentOrder | src/main.rs:41-56 | the leaves are the childless nodes of the subtree, in pre-order |
| Tree.LeavesAllInDocumentOrder | src/main.rs:49-53 | the same for a list of children |
| Tree.ChildlessAppend | src/main.rs:41-56 | picking the childless nodes commutes with concatenation |
| Tree.LeavesFromTree | src/main.rs:27-56 | the leaves of the converted tree are the childless nodes of the reply, regular children before floating ones, with their window, type and name |
| Tree.LeavesAllFromTree | src/main.rs:27-56 | the same for a list of reply nodes |
| Tree.FindName | src/main.rs:58-64 | a node that is found carries the searched name |
| Tree.FindAmong | src/main.rs:62 | `find_map` over the children finds only a node with the searched name |
| Tree.FirstNamed | src/main.rs:58-64 | the reference search: none exactly when no node in the sequence has the name; otherwise the first such node |
| Tree.FirstNamedAppend | src/main.rs:62 | the first match in a concatenation is in the first part if it has one there |
| Tree.FindNameIsFirstInDocumentOrder | src/main.rs:58-64 | the search returns the first node in pre-order whose name is the target, and none exactly when there is no such node |
| Tree.FindAmongIsFirstInDocumentOrder | src/main.rs:62 | the same for the search among children |
| NameOrder.StrLeIsLexicographic | src/main.rs:80 | the string order holds exactly when one string is a prefix of the other or the first differing character is smaller |
| NameOrder.StrLeReflexive | src/main.rs:80 | every string is ordered before or equal to itself |
| NameOrder.StrLeTotal | src/main.rs:80 | any two strings are comparable |
| NameOrder.StrLeAntisymmetric | src/main.rs:80 | strings ordered both ways are equal |
| NameOrder.StrLeTransitive | src/main.rs:80 | the string order is transitive |
| NameOrder.StrLe | src/main.rs:80 | the order of titles as `String`s compare; its meaning is stated by `NameOrder.StrLeIsLexicographic` and the four order laws |
| NameOrder.NameLe | src/main.rs:80 | `Option::cmp` on names: no name is below every title, titles compare by `StrLe`; proved a total order by `NameOrder.NameLeTotalOrder` |
| NameOrder.NameLeTotalOrder | src/main.rs:80 | `Option::cmp` on names is a total order (reflexive, total, antisymmetric, transitive) |
| Selector.SortByName | src/main.rs:80 | afterwards the array is sorted by name and holds the same leaves, each as often as before |
| Selector.InsertLast | src/main.rs:80 | one insertion step grows the sorted prefix by one and keeps the same leaves |
| Selector.Swap | src/main.rs:80 | exchanging two cells keeps the same leaves |
| Selector.SortedPermutationUnique | src/main.rs:80 | two sorted orderings of the same leaves coincide when no two leaves share a name, so then the unstable sort's result is determined |
| Selector.SameTails | src/main.rs:80 | two sorted orderings that agree on the first leaf have sorted tails holding the same leaves |
| Selector.SortedTail | src/main.rs:80 | the tail of a sorted sequence is sorted |
| Selector.SortedHeadsEqual | src/main.rs:80 | two sorted orderings of the same leaves with distinct names start with the same leaf |
| Selector.Windows | src/main.rs:83 | a leaf is kept exactly when it is a leaf of the input whose type is `con` |
| Selector.WindowsAppend | src/main.rs:83 | the filter keeps the relative order of the leaves it keeps |
| Selector.WindowsMultiplicity | src/main.rs:83 | a `con` leaf is kept as often as it occurs, and every other leaf is dropped |
| Selector.WindowsOfPermutation | src/main.rs:80-83 | filtering two orderings of the same leaves keeps the same windows, so sorting does not change which windows are offered |
| Selector.Title | src/main.rs:91-94 | the window's name, or `<No title>` when it has none; read back from a label by `Selector.LabelRoundTrip` |
| Selector.Label | src/main.rs:88-95 | `number:title`; `Selector.LabelRoundTrip` reads the number and the title back out of it |
| Selector.LabelNumberOf | src/main.rs:88-95 | the number and the title can be read back from a label |
| Selector.LabelRoundTrip | src/main.rs:88-95 | reading a label back yields the number it was made with and the window's title, or `<No title>` when it has none |
| Selector.NumberedTextInjective | src/main.rs:88-95 | equal `number:text` strings have equal numbers and equal texts |
| Selector.LabelsOfDistinctNumbersDiffer | src/main.rs:84-95 | labels with different numbers differ, whatever the titles |
| Selector.NumberedCons | src/main.rs:84-97 | numbering one more window in front keeps every entry's id and label aligned with its window |
| Selector.Number | src/main.rs:84-98 | on success, entry `i` has the window's id and the label numbered `first + i`; it succeeds exactly when every window has an id, and otherwise fails with a missing id |
| Selector.Entries | src/main.rs:81-98 | the selection succeeds exactly when every `con` leaf has an id; entry `i` stands for the `i`-th `con` leaf in sorted order and is labelled `i+1` |
| Selector.EntriesLabelsDistinct | src/main.rs:84-95 | no two entries share a label, even when windows share a title |
| Selector.NumberedDistinct | src/main.rs:84-95 | the same for any numbered selection |
| Selector.EntriesCoverWindows | src/main.rs:81-98 | every `con` leaf is offered with its own id and title, and every entry comes from such a leaf |
| Selector.NumberCons | src/main.rs:84-97 | numbering a window in front of numbered windows puts its entry first |
| Selector.ExampleLabels | src/main.rs:88-95 | labels 1, 2 and 3 read `1:<No title>`, `2:a` and `3:b` |
| Selector.SelectionExample | src/main.rs:80-98 | an untitled window and windows titled `a` and `b` are offered as `1:<No title>`, `2:a`, `3:b`, with their ids |
| Selector.DocumentOrderExample | src/main.rs:80-98 | the same windows found untitled, `b`, `a`: any sorted ordering of them is offered as `1:<No title>`, `2:a`, `3:b`, with their ids |
| Selector.ExampleSortIsDetermined | src/main.rs:80 | the untitled window, `a` and `b` is the only sorted ordering of those three windows |
| Selector.ExampleSorted | src/main.rs:80 | an untitled leaf sorts before `a`, and `a` before `b` |
| Selector.ExampleWindows | src/main.rs:83 | `con` leaves all pass the filter |
| Selector.ExampleNumbering | src/main.rs:84-98 | the numbering in that example |
| Chooser.Lines | src/main.rs:106-112 | the chooser input is empty exactly when there are no labels |
| Chooser.LinesAppend | src/main.rs:108-110 | each step of the fold appends the label and a newline |
| Chooser.ChooserInput | src/main.rs:106-112 | the loop builds each label followed by a newline, in entry order |
| Chooser.SplitLinesOfLines | src/main.rs:106-112 | a chooser reading the input line by line sees exactly the labels, in order, when no label holds a newline |
| Chooser.LinesHead | src/main.rs:109 | the first line of the input is the first label |
| Chooser.Labels | src/main.rs:106 | the labels of the entries, in entry order, without their ids |
| Chooser.TrimStart | src/main.rs:115 | removes exactly the leading whitespace |
| Chooser.IsWhitespace | src/main.rs:115 | the characters `str::trim` removes: the Unicode White_Space set, written out; used by `Chooser.Trim` |
| Chooser.TrimEnd | src/main.rs:115 | removes exactly the trailing whitespace |
| Chooser.Trim | src/main.rs:115 | the result is a slice `s[a..b]` of the answer with only whitespace before `a` and after `b`; it neither starts nor ends with whitespace; it is empty exactly when the answer is all whitespace |
| Chooser.TrimKeepsTrimmed | src/main.rs:115 | a text that neither starts nor ends with whitespace is left unchanged, so a trimmed answer trims to itself |
| Chooser.TrimEndIgnoresTrailing | src/main.rs:115 | whitespace appended to a text is removed again by trimming its end |
| Chooser.TrimEndStopsAt | src/main.rs:115 | trimming the end keeps everything up to the last non-whitespace character |
| Chooser.Resolve | src/main.rs:122-125 | finds no window exactly when no label equals the choice; otherwise the id of the first entry with that label |
| Chooser.ResolveOwnLabel | src/main.rs:122-125 | with distinct labels, the label of entry `k` resolves to entry `k`'s id |
| Decimal.NatToString | src/main.rs:90 | a number is written as a non-empty string of digits with no leading zero |
| Decimal.ParseNatToString | src/main.rs:90 | reading the digits back gives the number |
| Decimal.NatToStringInjective | src/main.rs:90 | different numbers are written differently |
| Decimal.IndexOf | src/main.rs:88-95 | the position of the first occurrence of a character, or the length when there is none |
| Decimal.IndexOfAfterDigits | src/main.rs:89 | in `digits ++ c ++ rest` the first `c` follows the digits |
| Decimal.IndexOfAppend | src/main.rs:89 | the search skips a prefix that does not hold the character |
| Dispatch.ParseCriterionOf | src/main.rs:130 | `[id=N] action` reads back as window `N` and the action |
| Dispatch.SplitAtSemicolon | src/main.rs:130 | the command splits at its first `;` into its two commands |
| Dispatch.RevealCommandTargets | src/main.rs:130 | the command is `scratchpad show` for the window followed by `floating disable` for the same window |
| Dispatch.RevealCommandInjective | src/main.rs:130 | different windows get different commands |
| Dispatch.Criterion | src/main.rs:130 | `[id=N] action`, one command addressed to window `N`; `Dispatch.ParseCriterionOf` reads the window and the action back |
| Dispatch.RevealCommand | src/main.rs:130 | the whole command; `Dispatch.RevealCommandTargets` shows it is `scratchpad show` then `floating disable`, both for the window |
| Scratchmenu.Decide | src/main.rs:114-130 | the run cancels exactly when the trimmed answer is empty; it fails exactly when no label equals the trimmed answer; otherwise it reveals the first window whose label that is |
| Scratchmenu.TrimLabel | src/main.rs:115 | trimming a label followed by the chooser's whitespace keeps the number and colon and cuts the title's trailing whitespace |
| Scratchmenu.DecideOfferedLine | src/main.rs:106-130 | answering with an offered line whose title does not end in whitespace reveals that line's window |
| Scratchmenu.TrailingWhitespaceTitleUnmatched | src/main.rs:115-125 | answering with an offered line whose title ends in whitespace fails as unmatched |
| Scratchmenu.NoLabelIsTrimmedTitle | src/main.rs:115-125 | no label equals a label whose title's trailing whitespace was cut |
| Scratchmenu.TrailingWhitespaceExample | src/main.rs:115-125 | the one window `vim ` (id 7): the chooser answering `1:vim ` plus newline makes the run fail |
| Scratchmenu.SingleWindowEntries | src/main.rs:81-98 | a single titled window is offered as entry `1:<title>` |
| Scratchmenu.TrimLabels | src/main.rs:115-125 | the lookup table of the corrected decision: each entry keeps its id and its label is trimmed like the answer |
| Scratchmenu.DecideTrimmed | src/main.rs:114-130 | corrected decision: cancels exactly when the trimmed answer is empty; fails exactly when no trimmed label equals the trimmed answer; otherwise reveals the first window whose trimmed label that is |
| Scratchmenu.DecideTrimmedOfferedLine | src/main.rs:106-130 | corrected: answering with any offered line, whatever its title, reveals that line's window |
| Scratchmenu.TrimmedLabels | src/main.rs:84-95 | trimmed labels keep their numbers and stay distinct |
| Scratchmenu.PrefixedDistinct | src/main.rs:84-95 | labels numbered by position are distinct whatever follows the colon |
| Scratchmenu.TrimmedLabelAt | src/main.rs:115 | trimming label `i` cuts only its title's trailing whitespace |
| Scratchmenu.Finish | src/main.rs:81-130 | numbering the sorted leaves, offering their labels to the chooser and deciding on its answer; a missing window id fails before the chooser is asked |
| Scratchmenu.Run | src/main.rs:74-137 | no scratchpad node fails; otherwise the leaves of the scratchpad are sorted by name, with the same leaves, and the run ends as the selection, the chooser and the decision on its answer make it end |

## Left out

- Asking i3 for the tree (`i3-msg -t get_tree`) and decoding its JSON reply: the tree is a parameter of `Run`.
- Starting the chooser through `sh -c`, writing to it and reading its output: the chooser is a pure function from input text to answer text, so a chooser that fails or behaves differently from run to run is not modelled.
- Running `i3-msg -t command`: `Run` returns the command text instead.
- The command-line argument that replaces `dmenu`: it only changes which chooser runs.
- UTF-8: the chooser input is kept as characters, not encoded into bytes, and the answer is taken as characters, so the error for an answer that is not valid UTF-8 is not modelled.
- The `dbg!` output on the error stream: it changes no result.
- The errors of spawning or waiting for a process: the model has no such I/O.
- Selector.SortByName: promises nothing about the order of leaves with equal names, because the program's unstable sort promises nothing either; `Selector.SortedPermutationUnique` shows that the result is determined when names are distinct.
- Selector.Number: the label number is an unbounded natural, because the `usize` `i + 1` cannot overflow for a list that fits in memory.
- Scratchmenu.Run: states its outcome for some sorted ordering of the scratchpad's leaves rather than for the program's own ordering, because ties between equal names are left open.
- Chooser.IsWhitespace: the whitespace set is the Unicode White_Space property as written out in the model; it is not checked against a Unicode table.
- Chooser.Trim: characters are Unicode scalar values, so a grapheme spanning several characters is not treated as one.

## Findings

| source | as written | input that shows it | evidently intended | confidence | as-written member | corrected member |
|---|---|---|---|---|---|---|
| src/main.rs:115-125 | the chooser's answer is trimmed of whitespace at both ends, then compared exactly with the untrimmed labels, and a failed lookup panics on `unwrap` | one scratchpad window titled `vim ` (trailing space) with id 7; the chooser returns the offered line `1:vim ` plus a newline; the trimmed `1:vim` matches no label | picking any offered line reveals its window | medium, not executed | Scratchmenu.TrailingWhitespaceTitleUnmatched | Scratchmenu.DecideTrimmedOfferedLine |

`Scratchmenu.Decide` is the program's decision as written, and
`Scratchmenu.TrailingWhitespaceExample` is the concrete case above.
`Scratchmenu.DecideTrimmed` compares the answer against the labels trimmed by
`Scratchmenu.TrimLabels`.
`Scratchmenu.Run` follows the program and uses `Decide`. The corrected
decision and the property it gains are stated beside it in
`Scratchmenu.DecideTrimmedOfferedLine`.
