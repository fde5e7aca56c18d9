# Markov-chain random words (mcrw.py), modelled in Dafny

`mcrw.py` defines `MCD`, a dictionary subclass that turns a list of seed
words into random, pronounceable words:

- `populate` strips each seed word and puts `chainlen` spaces in front of it.
  It then records, for every window of `chainlen` characters, the character
  that follows it (`add_key`). Finally it records the word's last `chainlen`
  characters followed by the end marker `"\n"`.
- `generate_words(N)` makes `N` random walks over that dictionary. Each walk
  starts from `chainlen` spaces. It repeatedly picks a random suffix of the
  current prefix (`get_suffix`) and stops at the end marker, or when the
  name already has more than 9 characters. Each finished name is yielded
  capitalized.

The model has six modules:

- `Wrappers`: `Result` and `Outcome`, for the error paths.
- `Text`: the Python 2 string operations the program relies on:
  `strip`/`lstrip`/`rstrip` over `unicode.isspace`, `" " * n`, and
  `capitalize`.
- `ChainTable`: the dictionary as a value. `Added` is one `add_key` call.
  `Transitions` lists every `add_key` call `populate` makes, and `Chain` is
  the dictionary they build. The lemmas say exactly which prefixes and
  suffixes the dictionary holds, in terms of the seed words.
- `WordSampler`: the walk as functions of the dictionary and of a stream of
  random draws. `pick(i)` is the `i`-th draw; a draw `d` selects element
  `d % len` of a suffix list. Every choice `random.choice` can make is the
  result of some stream. The lemmas prove:
  - on the dictionary of any non-empty seed list, `generate_words(N)` never
    raises and gives exactly `N` words;
  - each word is at most 10 characters long;
  - each word reuses only windows of the seed words and ends the way a seed
    word ends (unless it stopped at the length cap).
- `Mcrw`: the class `MCD` itself. It has a `table` field that `AddKey`,
  `AddWord` and `Populate` update in place with loops, as the source does.
  Each method is proved equal to its `ChainTable`/`WordSampler` function.
  `generate_words` only reads the dictionary, so its two loops are the
  methods `WalkFrom` (the inner `while True`) and `GenerateFrom` (the outer
  `for`). They run on the table's value, which `MCD.GenerateWords` hands
  them. Each `get_suffix` call there is `Choose` on that value, the
  function `MCD.GetSuffix` is defined by. `Create` is the constructor
  together with the chain-length check.
- `ScienceExample` and `SuggestExample`: the worked examples of the class
  docstring.
  - For `"science"` with chain length 2, the dictionary is the one listed.
    Every walk spells `"science"`, so every generated word is `"Science"`.
  - For `"suggest"`, `'g'` may follow `"g"` at chain length 1. At chain
    length 2, `"gg"` is followed by `'e'` and never by a third `'g'`.

Lines are taken as they come from `getlistfromtext`, that is after
`rstrip()`. `Text.StripAfterStripRight` proves that stripping such a line
gives the same word as stripping the raw line. The model therefore takes
the raw lines as its input.

Python's `str.capitalize()` upper-cases the first character and also
lower-cases all the others. The model follows this behaviour of the code,
not a reading in which only the first letter changes: `Capitalize` gives
`"Science"` for `"sCIENCE"`.

## Model

| member | source | states |
|---|---|---|
| Text.IsWhitespace | mcrw.py:97 | the characters `unicode.isspace()` accepts, which `rstrip` and `strip` remove from a decoded line |
| Text.Strip | mcrw.py:113 | `w.strip()`: `lstrip` and then `rstrip`; the lemmas below state what it gives |
| Text.StripLeftShape | mcrw.py:113 | `lstrip` removes a leading run of whitespace, all of it, and nothing else |
| Text.StripRightShape | mcrw.py:97 | `rstrip` removes a trailing run of whitespace, all of it, and nothing else |
| Text.StripShape | mcrw.py:113 | `strip()` gives a slice of the line that only whitespace surrounds and that neither starts nor ends with whitespace |
| Text.StripUnique | mcrw.py:113 | at most one such slice exists, so the one above is what `strip()` returns |
| Text.StripAllWhitespace | mcrw.py:113 | a line made only of whitespace strips to the empty word |
| Text.StripIdempotent | mcrw.py:113 | stripping a stripped word changes nothing |
| Text.StripAfterStripRight | mcrw.py:97-113 | `line.rstrip().strip() == line.strip()`: the `rstrip` done while reading does not change the stripped seed word |
| Text.Spaces | mcrw.py:114 | `" " * n` has `n` characters, all spaces, and is empty for a negative `n` |
| Text.Capitalize | mcrw.py:132 | `capitalize()` keeps the length, upper-cases the first character and lower-cases all the others |
| Text.CapitalizeIdempotent | mcrw.py:132 | capitalizing twice is capitalizing once |
| ChainTable.Added | mcrw.py:80-86 | `add_key(p, x)`: the keys gain `p`, the list under `p` is the old list (empty when `p` was new) with `x` appended, and every other list is unchanged |
| ChainTable.AddedKeysFit | mcrw.py:80-86 | adding a `k`-character prefix keeps every key at `k` characters with a non-empty list |
| ChainTable.InsertAllAppend | mcrw.py:112-118 | adding the transitions of `a` and then of `b` builds the same table as adding `a + b` |
| ChainTable.InsertAllContents | mcrw.py:112-118 | after a series of `add_key` calls, the list under each prefix is the old list followed by exactly the suffixes added for that prefix, in call order |
| ChainTable.WordTransitions | mcrw.py:114-118 | the `add_key` calls for one stripped word `w`: `len(w) + 1` of them, every prefix of `chainlen` characters, the first `len(w)` with a character and the last with the end marker |
| ChainTable.Transitions | mcrw.py:112-118 | the `add_key` calls of populate: those of each stripped seed word, in the order of the words |
| ChainTable.Chain | mcrw.py:106-118 | the dictionary populate builds on an empty MCD: every transition of the seed words added in order |
| ChainTable.TransitionsShape | mcrw.py:112-118 | populate makes Σ (len(w.strip()) + 1) `add_key` calls, every prefix of `chainlen` characters |
| ChainTable.EmptyWordTransitions | mcrw.py:113-118 | an empty stripped word adds only `chainlen` spaces -> end marker |
| ChainTable.WordTransitionsIff | mcrw.py:114-118 | a word adds `p` -> `c` iff `p + c` is a window of its padded form, and adds `p` -> end iff `p` is its last `chainlen` padded characters |
| ChainTable.TransitionsIff | mcrw.py:112-118 | populate adds a transition iff it is added for one of the stripped seed words |
| ChainTable.AddedSize | mcrw.py:80-86 | each `add_key` call adds exactly one suffix to the table, whether or not the prefix was new |
| ChainTable.ChainSize | mcrw.py:106-118 | the populated table holds Σ (len(w.strip()) + 1) suffixes in all |
| ChainTable.ChainKeys | mcrw.py:106-118 | every key of the populated table has `chainlen` characters and a non-empty list |
| ChainTable.ChainChars | mcrw.py:106-118 | character `c` is listed under `p` iff `p` has `chainlen` characters and `p + c` occurs in a padded stripped seed word |
| ChainTable.ChainLacksChar | mcrw.py:17-19 | a combination `p + c` found in no padded seed word is never listed |
| ChainTable.ChainEnds | mcrw.py:106-118 | the end marker is listed under `p` iff `p` is the last `chainlen` padded characters of some stripped seed word |
| WordSampler.Choose | mcrw.py:87-89 | `get_suffix(p)`: a missing prefix raises `KeyError(p)`, otherwise the result is an element of the list under `p` |
| WordSampler.ChooseCovers | mcrw.py:89 | every element of a listed prefix's list is picked by some draw, so every choice `random.choice` can make is modelled |
| WordSampler.Slide | mcrw.py:131 | `prefix[1:] + c` keeps the prefix length, drops the first character and ends with `c` |
| WordSampler.Walk | mcrw.py:125-131 | a finished walk extends the name it started from, uses at least one draw, and gives a name of at most 10 characters |
| WordSampler.Walks | mcrw.py:121-131 | the names of `N` successive walks from `chainlen` spaces; when they all finish there are exactly `N` of them, and the first `KeyError` ends the series |
| WordSampler.Generate | mcrw.py:119-132 | `list(generate_words(N))`: the names of the walks, each capitalized, or the first `KeyError` |
| WordSampler.WalksShape | mcrw.py:127 | every name of a successful series of walks has at most 10 characters |
| WordSampler.GenerateShape | mcrw.py:119-132 | `generate_words(N)` succeeds iff every walk does; then it gives `N` words, each its walk's name capitalized and at most 10 characters |
| WordSampler.GenerateStep | mcrw.py:121-132 | one pass of the outer loop: the next word is the capitalized name of the next walk, and the rest start at the next unused draw |
| WordSampler.GenerateNext | mcrw.py:121-132 | one pass of the outer loop, whatever the walk gives: a `KeyError` ends the run with that error, and a finished walk adds its capitalized name before the remaining words |
| WordSampler.StartIsKey | mcrw.py:122 | for a non-empty seed list, the starting prefix of `chainlen` spaces is a key |
| WordSampler.SlideIsKey | mcrw.py:131 | sliding a key by a character listed under it gives a key again |
| WordSampler.ChainWellFormed | mcrw.py:112-131 | the table of a non-empty seed list is one every walk can run on |
| WordSampler.WalkSucceeds | mcrw.py:125-131 | on such a table a walk never raises `KeyError` |
| WordSampler.WalksSucceed | mcrw.py:121-132 | on such a table every requested word is produced |
| WordSampler.NoSeedsKeyError | mcrw.py:126 | with no seed words the table is empty and the first `get_suffix` raises `KeyError` on the all-space prefix |
| WordSampler.WalkTraced | mcrw.py:125-131 | every character of a walked name is listed under the context before it, and the walk stopped at a key listing the end marker or at the length cap |
| WordSampler.WalksWalked | mcrw.py:121-132 | every name of a series of walks is such a finished walk |
| WordSampler.WindowIsContext | mcrw.py:114-131 | a window of the padded name is the prefix the walk held, followed by the character it drew |
| WordSampler.WalkedFromSeeds | mcrw.py:17-19 | a finished walk on the populated table uses only windows seen in the seed words and ends the way some seed word ends |
| WordSampler.GeneratedWords | mcrw.py:119-132 | for `chainlen` in 1..10 and a non-empty seed list, `generate_words(N)` gives `N` words, each at most 10 characters and each the capitalized name of a walk made only of seed windows |
| WordSampler.EmptySeedsGiveEmptyWords | mcrw.py:112-132 | when every seed word strips to the empty string, every generated word is empty |
| Mcrw.MCD.constructor | mcrw.py:65-67 | a new MCD is an empty dictionary with the given chain length |
| Mcrw.MCD.AddKey | mcrw.py:80-86 | the table becomes `Added(old table, prefix, suffix)` |
| Mcrw.MCD.GetSuffix | mcrw.py:87-89 | a missing prefix raises `KeyError`, otherwise the result is an element of the list under the prefix |
| Mcrw.MCD.AddWord | mcrw.py:113-118 | one pass of populate's outer loop adds the transitions of the stripped word in order and keeps every key at `chainlen` characters |
| Mcrw.MCD.Populate | mcrw.py:106-118 | a chain length outside 1..10 is rejected with the table untouched; otherwise the table grows by the transitions of all seed words in order |
| Mcrw.WalkFrom | mcrw.py:122-131 | the inner loop returns exactly the walk `Walk` describes, or its `KeyError`; throughout, the prefix is the last `chainlen` characters of `chainlen` spaces + name |
| Mcrw.GenerateFrom | mcrw.py:121-132 | the outer loop gives exactly `Generate` of the table: the capitalized names of `N` walks, or the first `KeyError` |
| Mcrw.MCD.GenerateWords | mcrw.py:119-132 | `generate_words(N)` on the object gives exactly `Generate` of its table; like `xrange(N)`, `N <= 0` gives no words |
| Mcrw.Create | mcrw.py:53-69 | `MCD(file, chainlen)` fails iff the chain length is outside 1..10, and otherwise holds the table built from the seed words |
| ScienceExample.ScienceWordTransitions | mcrw.py:21-32 | `"science"` with chain length 2 makes the eight `add_key` calls of the docstring, two spaces first |
| ScienceExample.ScienceChain | mcrw.py:21-33 | the populated dictionary is exactly the one the docstring lists |
| ScienceExample.ScienceWalk | mcrw.py:35-39 | from two spaces every prefix has one suffix, so whatever the draws the walk spells `"science"` in eight draws |
| ScienceExample.ScienceWords | mcrw.py:35-41 | `generate_words(N)` on that dictionary yields `"Science"` `N` times |
| SuggestExample.SuggestOneDeep | mcrw.py:45-49 | with chain length 1, `'g'` may follow `"g"` |
| SuggestExample.SuggestTwoDeep | mcrw.py:49-51 | with chain length 2, `"gg"` is followed by `'e'` and never by a third `'g'` |

## Left out

- Reading the seed file (`getlistfromtext`, mcrw.py:90-105), including the
  `codecs` decoding, is not modelled. The lines arrive as a sequence of
  strings.
- The `filename` and `encoding` attributes (mcrw.py:65, 68) are not
  modelled, because nothing in the core reads them after the file is read.
- Printing the chain-length message and `sys.exit(0)` (mcrw.py:110-111) are
  replaced by the error value `ChainLengthOutOfRange`. `Create` and
  `Populate` return it instead of ending the process.
- `__getitem__` and `__setitem__` (mcrw.py:72-78) only delegate to `dict`.
  The `table` field's own indexing stands for them.
- The demonstration script (mcrw.py:134-146) is file and console I/O and is
  not modelled.
- Seed lines are taken to hold no `"\n"`. mcrw.py stores the end marker as
  the string `"\n"` (mcrw.py:118) and stops a walk on it (mcrw.py:127), so
  a `"\n"` inside a word would read as the end of the word there. The model
  keeps `End` apart from `Ch('\n')`. Lines from `getlistfromtext`
  (mcrw.py:96-97, 102-103) never hold an interior `"\n"`, because iterating
  over a file splits at line ends and `rstrip()` removes the last one.
- WordSampler.Choose: the pseudo-random generator is replaced by a stream
  of draws, so the probability of each choice is not modelled. What is
  modelled is which choices are possible and in what order they are made.
- Mcrw.MCD.GenerateWords: `generate_words` is a lazy generator. The model
  returns the whole list, so a `KeyError` part-way through gives only the
  error. The words yielded before it are not kept.
- Text.Capitalize: upper and lower case are mapped for ASCII letters only.
  Other characters are left unchanged, whereas Python applies the full
  Unicode case tables.
- Text.IsWhitespace: models `unicode.isspace()`, the set `strip()` uses on
  the decoded lines of the `encoding` path. Without an encoding, Python 2
  strips byte strings, where only ASCII whitespace counts. That path is not
  modelled.
