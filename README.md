# pBE: pruned Basic Elements, modelled in Dafny

This project models two scripts that score summaries with pruned Basic Elements (pBE).

A parsed summary is a file of dependency-relation lines such as `nsubj(dog-1, barks-2)`. A
Basic Element (BE) is one such line whose relation head is in the list of allowed relations.
Its key is the relation followed by its two words, with the word positions removed.

- `pBE.py` (class `BE`) works on one target summary at a time. It counts the BE keys of every
  reference summary of the target's topic into a reference table, with one count column per
  reference file. It then counts the target's keys that also occur in the references. The
  score is a numerator (the matches between the two tables) over a denominator (the weight of
  the reference table). With `--ignore_freq`, frequencies become presence. With
  `--assign_cluster`, every word is first replaced by its cluster label, read from the
  target's cluster file.
- `clustering.py` (class `ClusterModel`) writes those cluster files. For each target, it
  collects the words of the references and of the target, and splits them into words with an
  embedding and words without one. It clusters the embedded words with a clustering library.
  It then writes one `word<TAB>#id#` line per clustered word, ordered by id, followed by one
  bare line per word without an embedding.

The model represents the inputs as follows:

- A directory is a map from file name to the lines of that file.
- A directory listing is a sequence of names.
- A Python dict that the scripts iterate over in insertion order is a map plus the order of
  its keys (`Topics.Groups`).
- Every exception the scripts can raise is an `Errors.Error` value carried by a `Result` or
  `Option`. This covers a failed tuple unpack, a missing cluster label (`KeyError`), a missing
  file, a zero denominator, and the clustering library refusing its input.
- The embeddings are a map from word to vector.
- The clustering routine is a function value given to the model.

Both classes are Dafny classes whose methods reset and refill their tables in place. Each
method is proved against a specification function or predicate in `Counting`, `Topics`,
`ClusterFile` or `Clustering`, and the lemmas beside those functions state what the scripts
promise.

Modules:

- `Wrappers` and `Errors` (common.dfy): `Option`, `Result` and the error values.
- `Text`: the Python string operations used, namely `rstrip`, `split`, `split(c)[0]` and
  decimal formatting.
- `BasicElements`: reading one relation line into a BE.
- `Counting`: BE keys, the reference and target tables, and the numerator and denominator.
- `Topics`: grouping file names by topic id, and pairing reference topics with target topics.
- `ClusterFile`: the cluster file format, how `clustering.py` writes it and how `pBE.py`
  reads it back.
- `Clustering`: `clustering.py`.
- `PrunedBE`: `pBE.py`, plus the lemmas that connect the two scripts.

## Model

| member | source | states |
|---|---|---|
| Text.RStrip | pBE.py:97 | `rstrip()` gives a prefix of the line that does not end in whitespace |
| Text.RStripRemovesSpaces | pBE.py:97 | what `rstrip()` removes is whitespace only |
| Text.RStripChar | pBE.py:104 | `rstrip(')')` gives a prefix that does not end in `)`, and only `)` characters are removed |
| Text.IndexFrom | pBE.py:98 | the first occurrence of a separator at or after a position, or none |
| Text.Split | pBE.py:98 | the parts of `split(sep)` join back to the string, and no part contains the separator |
| Text.FirstField | pBE.py:100 | `split(c)[0]` is the longest prefix without `c`, and is the whole string when `c` is absent |
| Text.SplitCountChar | pBE.py:98 | splitting on a character gives one part more than the number of occurrences of that character |
| Text.SplitPair | pBE.py:98 | a two-name unpack of `split(c)` succeeds exactly when `c` occurs once, and gives the text before and after it |
| Text.SplitCount | pBE.py:104 | `split(sep)` gives one part more than `count(sep)` finds |
| Text.NatToStringRoundTrip | clustering.py:153 | the decimal rendering of a natural number reads back as that number |
| Text.IntToStringRoundTrip | clustering.py:153 | the decimal rendering of an integer reads back as that integer |
| Text.IntToStringInjective | clustering.py:153 | two integers with the same rendering are equal |
| BasicElements.RelHead | pBE.py:99-102 | the relation head is the label up to its first `:`, or the whole label when there is no `:` |
| BasicElements.LoadRelations | pBE.py:36-37 | the allowed relations are the right-stripped lines of the relations file, one per line, in order |
| BasicElements.DigitSuffixLength | pBE.py:38 | the length of the longest run of digits at the end of a string |
| BasicElements.StripPositionMeaning | pBE.py:105-106 | removing the position deletes exactly the suffix that `-[0-9]+$` matches, and leaves a string without a match unchanged |
| BasicElements.StripRendered | pBE.py:105-106 | a word written as `w-p` with digits `p` is stripped back to `w` |
| BasicElements.StripRemovesOneGroup | pBE.py:105-106 | stripping removes only the last position group, so it is not idempotent (`a-1-2` gives `a-1`) |
| BasicElements.StripTwiceIff | pBE.py:105-106 | stripping twice equals stripping once exactly when the first result carries no position suffix |
| BasicElements.ParseLineMeaning | pBE.py:97-104 | blank lines give nothing; the `(` unpack fails exactly when a non-blank line does not hold exactly one `(`; a line gives nothing exactly when its relation head is not allowed; a BE has an allowed head and is the text before `(` |
| BasicElements.ParseLineTokenUnpack | pBE.py:104 | for a non-blank line with one `(` and an allowed head, the `", "` unpack fails exactly when the text after `(`, stripped of `)`, does not hold `", "` exactly once |
| BasicElements.ParseLineAllowed | pBE.py:103 | every parsed BE has an allowed relation head |
| BasicElements.ParseRendered | pBE.py:97-106 | a line the dependency parser writes for an allowed relation parses to that relation and its two words |
| BasicElements.Extract | clustering.py:96-106 | the BEs of a file, in line order and at most one per line, each with an allowed head; or the error of the first bad line |
| BasicElements.Tokens | clustering.py:107-108 | both words of every BE, in order: first word then second |
| Counting.Label | pBE.py:107-109 | a word is kept as it is without clusters; with clusters it becomes its label, or raises `KeyError` exactly when the cluster file does not list it |
| Counting.KeysOf | pBE.py:107-110 | one key per BE, namely the relation and its two (labelled) words |
| Counting.FileKeysOfExtract | pBE.py:96-110 | a file whose lines all parse and whose words all have labels gives exactly one key per BE, in order, and no error |
| Counting.FileKeysNeedParse | pBE.py:96-110 | a file has keys only when every one of its lines parses, so a parse error is never hidden |
| Counting.LineKeyRendered | pBE.py:97-110 | a rendered line gives its BE key, or the `KeyError` of its first word that has no label |
| Counting.Columns | pBE.py:94-116 | one key column per reference file, in the order given, or the first error |
| Counting.RefTableUnique | pBE.py:91-116 | the reference table is determined by its key columns |
| Counting.RefTableEntries | pBE.py:111-115 | every vector of the reference table has no negative count and at least one positive count |
| Counting.RefTableEmpty | pBE.py:92 | the emptied table is the reference table of no file |
| Counting.Tally | pBE.py:111-115 | counting the keys of one file keeps every vector at one slot per reference file |
| Counting.Bump | pBE.py:111-115 | one increment keeps every vector at one slot per reference file |
| Counting.TallySnoc | pBE.py:96-115 | counting one more key is one more increment |
| Counting.TallyIsRefTable | pBE.py:94-116 | counting the keys of the next file into its own column extends the reference table by that file's column |
| Counting.TrgTableEmpty | pBE.py:120 | the emptied target table is the target table of no key |
| Counting.TrgTableStep | pBE.py:140-144 | one more target key is counted again when already counted, counted once when it is a reference key, and ignored otherwise |
| Counting.PresentCount | pBE.py:153 | the number of reference files holding a key is at most the number of files |
| Counting.WeightPositive | pBE.py:149-153 | a key present in some file weighs at least 1 in both modes |
| Counting.VecSumNonNegative | pBE.py:151 | a count vector has a non-negative sum |
| Counting.MatchSum | pBE.py:164-165 | the matches of one key are at most its reference total, at most its presence count when the target count is at most 1, and never negative |
| Counting.SumValuesRemove | pBE.py:149 | a sum over a dict's values does not depend on the order its keys are visited in |
| Counting.SumValuesMonotone | pBE.py:149 | a sum over a sub-dict with smaller non-negative values is not larger |
| Counting.SumRestrictStep | pBE.py:149 | visiting one more key adds its term to the sum |
| Counting.NumeratorBounds | pBE.py:147-166 | for count tables the score is a ratio in [0, 1], i.e. 0 <= numerator <= denominator, in both modes |
| Counting.DenominatorZeroIff | pBE.py:147-154 | the denominator is zero exactly when the reference table is empty, which is when the division raises |
| Counting.ScenarioTables | pBE.py:91-166 | one reference `nsubj(dog-1, barks-2)` and a target holding it twice give the vector [1], the count 2 and a score of 1/1 in both modes |
| Counting.ScenarioKeys | pBE.py:96-110 | the example line gives the key `nsubj dog barks` |
| Counting.ScenarioScore | pBE.py:147-166 | a target count of 2 against a single reference occurrence contributes 1 match |
| Topics.Visible | pBE.py:46 | the listing without hidden names, each kept name appearing as often as it is listed |
| Topics.TopicOf | pBE.py:49 | the topic id is the name up to its first `.` |
| Topics.InTopic | pBE.py:48-53 | the names of one topic, in listing order, with their multiplicities |
| Topics.TopicsInOrder | pBE.py:48-53 | every topic of the names is listed, and each only once |
| Topics.TopicIds | pBE.py:48-53 | one topic id per name, in listing order |
| Topics.FirstIndex | pBE.py:48-53 | the position of the first name of a topic, or the number of names when no name has it |
| Topics.TopicsFirstAppearance | pBE.py:48-53 | the topics appear in the order of their first names, as the dict's insertion order keeps them |
| Topics.TopicsInOrderMembers | pBE.py:48-53 | a topic is listed exactly when some name has it |
| Topics.GroupByTopic | pBE.py:45-54 | the dict maps each topic of the visible names, in order of first appearance, to that topic's names in listing order |
| Topics.GroupingStep | pBE.py:50-53 | adding one name keeps the dict equal to the grouping of the names read so far |
| Topics.GroupingPartitions | pBE.py:45-54 | every visible name is in exactly one group, its own topic's, as often as it is listed |
| Topics.GenPair | pBE.py:69-75 | the reference topics that also have target files, in dict order, each with both of its name lists |
| Topics.PairsOfShared | pBE.py:69-75 | the i-th pair yielded is the i-th shared topic with its two name lists |
| Topics.PairedIff | pBE.py:69-75 | a topic is paired exactly when it has a visible reference file and a visible target file |
| ClusterFile.ClusterLabel | clustering.py:153 | a label is `#`, the id, `#`, and contains no tab |
| ClusterFile.ClusterLabelInjective | clustering.py:153 | two clusters never share a label |
| ClusterFile.ClusterLines | clustering.py:152-153 | one line per clustered word, in the order given |
| ClusterFile.FileLines | clustering.py:151-155 | a cluster file has one line per clustered word, then one line per OOV word |
| ClusterFile.FileLinesIndex | clustering.py:151-155 | line i is the i-th clustered word's line, and the OOV words come after them in order |
| ClusterFile.InsertSorted | clustering.py:152 | inserting into a sorted list keeps it sorted and adds exactly the new item |
| ClusterFile.SortById | clustering.py:152 | `sorted(..., key=id)` is ordered by id and is a permutation of its input |
| ClusterFile.SortStable | clustering.py:152 | sorting keeps the order of the words within each cluster (the sort is stable) |
| ClusterFile.SortTokens | clustering.py:152 | sorting keeps the words, and keeps them distinct |
| ClusterFile.TokenSetIff | clustering.py:147-149 | a word is among the items exactly when some item carries it |
| ClusterFile.ReadEntryMeaning | pBE.py:84-88 | the `\t` unpack succeeds exactly when the stripped line holds one tab, and then splits at it; otherwise the stripped line maps to itself |
| ClusterFile.Entries | pBE.py:82-88 | one entry per line, in order |
| ClusterFile.Collect | pBE.py:85-88 | the mapping holds exactly the words of the entries |
| ClusterFile.ReadClusterFileSnoc | pBE.py:82-88 | one more line sets or overrides the entry of its word |
| ClusterFile.CollectDistinct | pBE.py:85-88 | when no word repeats, each word maps to the value on its own line |
| ClusterFile.ReadClusterLine | pBE.py:84-85 | a clustered word's written line reads back as the word and its label |
| ClusterFile.ReadOOVLine | pBE.py:86-88 | an OOV word's written line reads back as the word mapped to itself |
| ClusterFile.RoundTrip | clustering.py:151-155 | reading a written file back gives exactly its clustered and OOV words, each clustered word mapped to its label and each OOV word to itself |
| ClusterFile.TrailingSpaceLost | pBE.py:87-88 | an OOV word ending in whitespace does not survive the round trip: it is read back stripped |
| ClusterFile.ReadStripped | pBE.py:86-88 | a line without a tab is read as its stripped text mapped to itself |
| Clustering.VocabHasTokens | clustering.py:93-108 | every word of every BE of the reference files is in the reference vocabulary |
| Clustering.VocabSnoc | clustering.py:94-108 | the vocabulary of one more file is the earlier vocabulary followed by that file's words |
| Clustering.VocabStops | clustering.py:94-95 | the vocabulary of a list whose i-th file is the first missing or bad one is that file's error |
| Clustering.ExtractErrorPersists | clustering.py:96-106 | reading stops at the first bad line: its error is the error of the whole file |
| Clustering.ClusterCount | clustering.py:141-142 | with a rate in [0, 1], the number of clusters is between 0 and the number of embedded words |
| Clustering.TimesIsProduct | clustering.py:142 | the repeated sum used for the count is the product `vocab_size * cluster_rate` |
| Clustering.Truncate | clustering.py:142 | `int()` rounds toward zero, for positive and negative values |
| Clustering.ZippedTokens | clustering.py:147-149 | zipping distinct words gives items with distinct words, all taken from the list, and all of them when no id is missing |
| Clustering.ClusterFileIntro | clustering.py:147-155 | sorted, distinct, embedded assignments and the OOV words make a cluster file for their words |
| Clustering.ClusterModel.constructor | clustering.py:38-56 | both listings are grouped by topic, the relations are loaded, and the parameters are kept |
| Clustering.ClusterModel.AppendTokens | clustering.py:96-108 | appends both words of every BE of the file, in order, or gives the first bad line's error |
| Clustering.ClusterModel.RefVocab | clustering.py:93-108 | the reference vocabulary is all words of all reference files in order, or the first error |
| Clustering.ClusterModel.Partition | clustering.py:130-139 | whatever the set's iteration order, the embedded words go to `valid_vocab` with their vectors and the others to `OOV`, each exactly once |
| Clustering.ClusterModel.Pairs | clustering.py:147-149 | the zip pairs each word with its id, as far as the shorter list goes |
| Clustering.ClusterModel.WriteLines | clustering.py:151-155 | the written lines are the sorted assignments' lines followed by the OOV words |
| Clustering.ClusterModel.ClusterTarget | clustering.py:113-155 | a missing or bad target file stops the script with its error. Otherwise, for some order of visiting the word set, the script splits the words into embedded and OOV words and calls the library on the embedded words' matrix with `int(len * rate)` clusters. It then stops exactly when the library refuses, or writes the embedded words zipped with the returned ids, sorted by id, followed by the OOV words. That output is a cluster file for those words |
| Clustering.ClusterModel.OutcomeError | clustering.py:111-155 | a readable target stops the loop only when the library refuses its matrix, which a library accepting every matrix never does |
| Clustering.ClusterModel.ClusterFileWritten | clustering.py:141-155 | what is written is a cluster file, and it is complete when the library gives one id per row |
| Clustering.ClusterModel.AssignCluster | clustering.py:91-155 | a bad reference changes nothing. Otherwise every non-reference target before the stop gets exactly the lines the library's ids give. The error is what the stopping target gives. No other file changes. When the library accepts every matrix and every non-reference target is readable, there is no error |
| Clustering.ClusterModel.ClusterTargets | clustering.py:111-155 | the target loop writes each non-reference target's file, in order, as the library's ids give it, until one target stops it. It stops only on a missing or bad file or a library refusal, and never when the library accepts every matrix and every such target is readable |
| Clustering.ClusterModel.DoneUpdate | clustering.py:151 | writing one more target's file keeps every earlier target's file |
| Clustering.ClusterModel.DoneHas | clustering.py:111-112 | every processed target that is not a reference has its cluster file |
| PrunedBE.BE.constructor | pBE.py:22-42 | both listings are grouped by topic, the three tables start empty, the relations are loaded, and the switches are kept |
| PrunedBE.BE.GetClsDict | pBE.py:78-88 | the mapping is what the target's cluster file reads back as when clusters are on, empty otherwise, and a missing cluster file is reported |
| PrunedBE.BE.GetRefCount | pBE.py:91-116 | the table is the reference table of the reference files' key columns, or the first error (missing file, bad line, missing label) is reported |
| PrunedBE.BE.CountReference | pBE.py:95-115 | one reference file's keys are counted into its own column, or its first error is reported |
| PrunedBE.BE.GetTrgCount | pBE.py:119-144 | the table counts exactly the target keys that occur in the reference table, or the error is reported |
| PrunedBE.BE.GetDenominator | pBE.py:147-154 | the denominator sums each reference key's weight (its total, or its number of files under `ignore_freq`) |
| PrunedBE.BE.GetNumerator | pBE.py:157-166 | the numerator sums, over shared keys, the per-file minimum of the target count (1 under `ignore_freq`) and the reference count |
| PrunedBE.BE.OutputScore | pBE.py:169-172 | the score is numerator over denominator, and fails exactly when the denominator is zero |
| PrunedBE.BE.ScoreTarget | pBE.py:185-189 | one target's score is the first error of the four steps. Failing that, it is a zero-denominator failure when the reference table is empty, and otherwise exactly (numerator, denominator) of the two tables, a ratio in [0, 1] |
| PrunedBE.TablesAreCounts | pBE.py:91-144 | the tables the counting loops build hold no negative count |
| PrunedBE.WrittenWordsMapped | pBE.py:82-88 | every word a complete cluster file was written for is in the mapping read back |
| PrunedBE.ClusterFileTotal | pBE.py:78-88 | reading a complete cluster file back maps every word it was written for |
| PrunedBE.FileCovered | pBE.py:107-109 | a file whose every word has a label is read without `KeyError` |
| PrunedBE.ColumnsCovered | pBE.py:94-109 | reference files whose whole vocabulary has labels are read without `KeyError` |
| PrunedBE.NoKeyError | pBE.py:107-138 | with the cluster file `clustering.py` writes for a target, `pBE.py` raises no `KeyError` on the references or on that target |

## Left out

- Command-line parsing and path joining are not modelled. Directories and listings are given
  as values, and `os.makedirs` of the output directory is not modelled (pBE.py:6-17, 23-28;
  clustering.py:39-43).
- Loading the embeddings (`KeyedVectors.load_word2vec_format`) is not modelled. The embeddings
  are a map given to `Clustering.ClusterModel`.
- `AgglomerativeClustering.fit_predict` is not modelled. It is a function value that returns
  the ids, or `None` where the library would raise. The promise of one id per row is the
  predicate `OneIdPerRow`, not an axiom.
- The float score and its formatting are not modelled. `OutputScore` returns the exact pair
  (numerator, denominator); floating-point division and rounding are left out.
- Writing the score line is not modelled, because it needs the global `trg_fname` and the
  extension regex `.txt|.html` (pBE.py:39, 173-174).
- The `__main__` loops (pBE.py:179-189, clustering.py:163-167) are not modelled.
  `PrunedBE.BE.ScoreTarget` models one pass of the inner pBE loop, and
  `Clustering.ClusterModel.AssignCluster` models one topic of the clustering loop.
- `print` output is not modelled (clustering.py:157-158).
- Strings are sequences of characters. `Text.IsSpace` lists every character Python's
  `str.isspace` accepts. There is no Unicode normalisation and no encoding handling.
- Line terminators are not modelled: a file is its list of lines, each of which the scripts
  right-strip anyway.
- ClusterFile.RoundTrip, PrunedBE.NoKeyError, PrunedBE.ClusterFileTotal: a written line is
  taken to stay one line. A word holding `\n` or `\r` would be written as one line here.
  Python's file iteration, with universal newlines, would read it back as two lines. Words
  from parsed lines never hold a line break, because the script iterates over lines.
- The regex `$` also matching before a final newline is not modelled, because lines reach the
  regex already stripped.
- The repeated position strip inside the `assign_cluster` branch (pBE.py:133-135) recomputes
  the same words, so the model strips once.
- The removal of word positions (`StripPosition`) removes only one trailing `-digits` group,
  so it is not idempotent: `a-1-2` becomes `a-1`. See `BasicElements.StripRemovesOneGroup`
  and `BasicElements.StripTwiceIff`.
- `gen_pair` of `clustering.py` (clustering.py:83-89) yields the two name lists without the
  topic. `Topics.GenPair` also yields the topic; otherwise the two scripts' `gen_pair`,
  `get_ref` and `get_trg` bodies are the same and are modelled once.
- `Clustering.ClusterModel.Partition` visits the words of the Python set in an order chosen by
  the model, because Python's set order is unspecified. Its postcondition holds for every
  order.
- Parser.java, which produces the relation lines, is not part of this model. Its output format
  is taken to be `rel(w1-p1, w2-p2)` (`BasicElements.RenderLine`).
- PrunedBE.BE.GetRefCount, PrunedBE.BE.CountReference, PrunedBE.BE.GetTrgCount: after an error,
  the contents of the partly filled table are not stated, because the script stops there.
- PrunedBE.NoKeyError, PrunedBE.ClusterFileTotal, PrunedBE.WrittenWordsMapped: these are
  stated only for words that contain no tab, and for OOV words (words without an embedding)
  that do not end in whitespace (`BareLine`). An OOV word ending in whitespace is read back
  stripped (`ClusterFile.TrailingSpaceLost`), so a later `KeyError` for it is
  possible.
- Clustering.ClusterModel.ClusterTarget: the cluster file is complete only when the library
  gives one id per row (`OneIdPerRow`). Without that, `zip` drops the words that have no id.
- Clustering.ClusterCount: `int(vocab_size * cluster_rate)` multiplies two doubles. The model
  truncates the exact real product instead. A double product that rounds across an integer
  therefore gives a different count: in Python, `int(100 * 0.29)` is 28, while the exact
  product 29 gives 29.
- Concurrency and file-system failures other than a missing file (permissions, I/O errors) are
  not modelled.
