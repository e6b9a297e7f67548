# Conjugation index builder, modelled in Dafny

The conjugador indexer (`indexer/indexcreator.py`) reads one JSON file per
verb, flattens every conjugated form into search-index documents and gives
each infinitive a one-letter navigation key. This project models its pure
core:

- `_get_first_letter_for_index`: the navigation key. It takes the first
  character, lower-cases it and folds seven accented vowels.
- `write_entry` and `_write_term`: the document written for one word, and
  the `indexed` set that word joins.
- `_process_file`: the walk over forms, slots, words and `/`-separated
  pieces, its de-duplication test, its exceptions and its returned count.
- The counting loop of `process_files`.

The modules follow the program's structure:

| module | models |
|---|---|
| `Wrappers` | `Option` and `Result` (an exception is a `Failure`) |
| `Text` | `str.lower()` on one character, `str.strip()`, `str.split(sep)` and `sep.join` |
| `LetterKey` | `_get_first_letter_for_index` |
| `Paradigm` | the parsed file (`Record`, `Form`) and the order in which its words are visited |
| `EntryBuilder` | which entries one file emits, in which order, and its `indexed` set, as a pure walk |
| `IndexWriter` | `write_entry`; the Whoosh writer becomes the list of documents added so far |
| `IndexCreator` | `_write_term` and `_process_file`, as control-flow functions and as the loops themselves |
| `Corpus` | the loop of `process_files` that sums the per-file counts |

The de-duplication test looks up the *raw* word in a set that only ever
receives split, stripped pieces. Two consequences are proved:

- A raw word containing `/` is never skipped, so its pieces can be emitted
  again (`EntryBuilder.SeparatedWordNeverSkipped`,
  `EntryBuilder.SharedPieceEmittedTwice`).
- De-duplication is exact whenever every raw word is already a clean
  single piece (`EntryBuilder.CleanRecordHasNoRepeats`). The converse does
  not hold: a file whose only raw word is "a/b" repeats nothing either.

`IndexCreator.ProcessFrom` follows the source's control flow and stops at
the first exception. `EntryBuilder.WalkFrom` computes what would be
emitted. `IndexCreator.ProcessFileMeaning` connects the two.

## Model

| member | source | states |
|---|---|---|
| `LetterKey.LetterOf` | indexer/indexcreator.py:59-69 | the letter kept for an initial is lower case and is never one of the accented vowels the table folds |
| `LetterKey.FirstLetterForIndex` | indexer/indexcreator.py:54-71 | `None` gives the empty key; the empty string raises `IndexError`; any other word gives a key of exactly one character, a lower-case letter that is not a folded vowel |
| `LetterKey.KeyIgnoresCaseAndTail` | indexer/indexcreator.py:59 | the key depends only on the first character, up to case |
| `LetterKey.KeyIsFixedPoint` | indexer/indexcreator.py:59-71 | applying the key function to a key gives the same key |
| `LetterKey.PlainInitialIsKept` | indexer/indexcreator.py:59-71 | an initial that is already lower case and unaccented is the key itself |
| `LetterKey.CapitalInitialIsLowered` | indexer/indexcreator.py:59 | an ASCII capital initial gives its lower-case letter |
| `LetterKey.UnaccentedInitialIsLowered` | indexer/indexcreator.py:59-71 | an initial whose lower case is not in the table passes through, lower-cased |
| `LetterKey.AccentedInitialFolds` | indexer/indexcreator.py:59-69 | each accented vowel, lower or upper case, folds to its plain vowel, because lower-casing happens before the table lookup |
| `Text.ToLower` | indexer/indexcreator.py:59 | the result is never upper case; a character that is not upper case is unchanged, and an upper-case one changes |
| `Text.ToLowerIdempotent` | indexer/indexcreator.py:59 | lower-casing twice is lower-casing once |
| `Text.BlankRunEnd` | indexer/indexcreator.py:114 | the end of a run of whitespace: everything skipped is whitespace and the character reached is not |
| `Text.BlankRunStart` | indexer/indexcreator.py:114 | the start of a run of trailing whitespace, with the same two guarantees going backwards |
| `Text.Strip` | indexer/indexcreator.py:114 | the result is the slice of the input between two runs of whitespace; it has no whitespace at either end; it equals the input exactly when the input has none; it adds no character |
| `Text.StripIdempotent` | indexer/indexcreator.py:114 | stripping twice is stripping once |
| `Text.Split` | indexer/indexcreator.py:114 | at least one piece, and no piece contains the separator |
| `Text.JoinSplit` | indexer/indexcreator.py:114 | joining the pieces with the separator gives the original string back |
| `Text.SplitJoin` | indexer/indexcreator.py:114 | splitting a join of separator-free pieces gives those pieces back |
| `Text.SplitAtLeastTwo` | indexer/indexcreator.py:114 | a string holding the separator splits into at least two pieces |
| `Text.SplitNoSeparator` | indexer/indexcreator.py:114 | a string without the separator is a single piece |
| `Text.SplitAtSeparator` | indexer/indexcreator.py:114 | splitting at the first separator gives the text before it, then the pieces of the rest |
| `Paradigm.SlotOrder` | indexer/indexcreator.py:106-108 | within a form, the six slots are visited in the order singular1, singular2, singular3, plural1, plural2, plural3 |
| `Paradigm.OccurrencesAppend` | indexer/indexcreator.py:105 | forms are visited in file order: the words of `a + b` are the words of `a` followed by those of `b` |
| `EntryBuilder.Pieces` | indexer/indexcreator.py:114 | a raw word has one piece per part of its split, and every piece is canonical: free of the separator and of surrounding whitespace |
| `EntryBuilder.CanonicalIsOwnPiece` | indexer/indexcreator.py:111-115 | a raw word is its own single piece exactly when it is canonical |
| `EntryBuilder.SeparatorGivesSeveralPieces` | indexer/indexcreator.py:114 | a raw word with `/` has at least two pieces |
| `EntryBuilder.PiecesJoin` | indexer/indexcreator.py:114 | when no part needs stripping, joining the pieces with `/` gives the raw word back |
| `EntryBuilder.EmitPieces` | indexer/indexcreator.py:115-117 | emitting the pieces adds exactly those pieces to `indexed` and appends their entries |
| `EntryBuilder.WordsOfEntriesFor` | indexer/indexcreator.py:115-117 | the words written for a raw word's pieces are exactly its pieces, nothing more and nothing less |
| `EntryBuilder.WalkGrows` | indexer/indexcreator.py:105-117 | the walk only ever appends entries and adds to `indexed` |
| `EntryBuilder.StepWordIndexed` | indexer/indexcreator.py:109-117 | while `indexed` holds only canonical pieces, one raw word, skipped or not, leaves `indexed` as before plus that word's pieces, and it still holds only canonical pieces |
| `EntryBuilder.StepWordConsistent` | indexer/indexcreator.py:109-117 | one raw word keeps `indexed` equal to the set of emitted words, all canonical |
| `EntryBuilder.WalkAppend` | indexer/indexcreator.py:105-117 | walking `a + b` is walking `a`, then `b` |
| `EntryBuilder.WalkIndexed` | indexer/indexcreator.py:92 | the `indexed` set grows by the pieces of every raw word walked, skipped or not |
| `EntryBuilder.WalkConsistent` | indexer/indexcreator.py:92 | the walk keeps `indexed` equal to the set of emitted words, all canonical |
| `EntryBuilder.IndexedIsEmittedWords` | indexer/indexcreator.py:92 | after a file, `indexed` is exactly the set of emitted words |
| `EntryBuilder.IndexedIsAllPieces` | indexer/indexcreator.py:103-119 | after a file, `indexed` is the set of all pieces of all raw words of the file |
| `EntryBuilder.EntriesMatchReference` | indexer/indexcreator.py:105-117 | the running walk emits the same entries as a stateless reference, in which a raw word is skipped exactly when it is a piece of an earlier raw word |
| `EntryBuilder.WordsCardinality` | indexer/indexcreator.py:119 | a list of entries has at most as many distinct words as entries, and as many exactly when no word repeats |
| `EntryBuilder.CountBounds` | indexer/indexcreator.py:119 | the returned count is at most the number of entries written, and equals it exactly when no word was emitted twice |
| `EntryBuilder.WalkKeepsDistinct` | indexer/indexcreator.py:111-115 | when every raw word is canonical, the walk never emits a word twice |
| `EntryBuilder.CleanRecordHasNoRepeats` | indexer/indexcreator.py:111-119 | a file whose raw words are all canonical emits no word twice, and its count equals its number of entries |
| `EntryBuilder.SeparatedWordNeverSkipped` | indexer/indexcreator.py:111-115 | a raw word with `/` is never skipped: all of its (two or more) pieces are emitted, even ones emitted before |
| `EntryBuilder.PiecesOfTwo` | indexer/indexcreator.py:114 | two canonical words joined by `/` split back into those two words |
| `EntryBuilder.SharedPieceEmittedTwice` | indexer/indexcreator.py:105-119 | a form listing "p/q" and then "p/r" emits `p` twice: four entries, but at most three words in `indexed` |
| `EntryBuilder.EntryProvenance` | indexer/indexcreator.py:109-117 | every entry emitted is a piece of some raw word of the file, carries the file's name, and is flagged infinitive exactly when that word's form is "Infinitiu" |
| `IndexWriter.WriteEntry` | indexer/indexcreator.py:74-83 | raises exactly for an infinitive with an empty word; otherwise the document holds the word and the file, has an index letter exactly when it is an infinitive, and that letter is the word's navigation key |
| `IndexWriter.DocsCarryKeys` | indexer/indexcreator.py:74-83 | each document written for a list of entries keeps its entry's word and file, has a navigation letter exactly when the entry is an infinitive, and that letter is the word's key |
| `IndexWriter.DocsForAppend` | indexer/indexcreator.py:81-83 | writing two lists of entries one after the other adds the documents of the first, then those of the second |
| `IndexWriter.LetterIffInfinitive` | indexer/indexcreator.py:76-79 | a stored document has a navigation letter exactly when its entry is an infinitive, and the letter is one plain lower-case character |
| `IndexCreator.WriteTermKeepsInStep` | indexer/indexcreator.py:85-92 | `_write_term` keeps the writer's documents and `indexed` in step with the entries emitted so far: both are extended by exactly the written entry |
| `IndexCreator.WritePiecesWritable` | indexer/indexcreator.py:115-117 | when no piece raises, writing the pieces adds them all to `indexed` and appends their documents in order |
| `IndexCreator.WritePiecesFaulty` | indexer/indexcreator.py:115-117 | when some piece would raise, writing the pieces raises `IndexError` |
| `IndexCreator.ProcessWordMeaning` | indexer/indexcreator.py:109-117 | one raw word, processed with the writer, raises exactly when one of its entries is faulty and otherwise appends exactly the documents of the entries the walk emits |
| `IndexCreator.ProcessFromMeaning` | indexer/indexcreator.py:105-117 | a run of raw words raises exactly when some emitted entry is faulty; otherwise its `indexed` set is the walk's and the writer gains the documents of the walk's entries, in order |
| `IndexCreator.ProcessFileMeaning` | indexer/indexcreator.py:95-119 | `_process_file` raises exactly when the file emits a faulty entry; otherwise the writer gains one document per emitted entry, in emission order, and the count is the number of distinct pieces of the file |
| `IndexCreator.ProcessAppend` | indexer/indexcreator.py:105-117 | processing `a + b` is processing `a`, then `b` unless `a` raised |
| `IndexCreator.WritePiecesLoop` | indexer/indexcreator.py:115-117 | the inner loop over pieces computes the functional result: it raises exactly when a piece is faulty, and otherwise adds every piece and appends every document |
| `IndexCreator.ProcessWordsLoop` | indexer/indexcreator.py:108-117 | the loop over a slot's words computes the functional result over that slot's words |
| `IndexCreator.ProcessSlotsLoop` | indexer/indexcreator.py:106-117 | the loop over the six slots computes the functional result over the form's words |
| `IndexCreator.ProcessFileLoops` | indexer/indexcreator.py:95-119 | the nested loops of `_process_file` raise exactly when an emitted entry is faulty; otherwise they append the emitted entries' documents in order and return the size of the walk's `indexed` set |
| `Corpus.FileStepMeans` | indexer/indexcreator.py:95-119 | `_process_file` applied to a source file behaves as the per-file meaning that the corpus lemmas assume |
| `Corpus.CorpusWritableCons` | indexer/indexcreator.py:129-130 | a corpus can be written exactly when its first file and the rest can |
| `Corpus.RunMeaning` | indexer/indexcreator.py:125-130 | the run over all files raises exactly when some file emits a faulty entry; otherwise the writer holds every file's documents in file order, and the total is the sum of the per-file counts |
| `Corpus.ProcessFilesLoop` | indexer/indexcreator.py:128-130 | the counting loop computes the run: it raises exactly when some file would, and otherwise returns all the documents and the sum of the counts |
| `Corpus.ProcessFilesRun` | indexer/indexcreator.py:125-130 | `process_files` with the real `_process_file`: it raises exactly when some file emits a faulty entry; otherwise the writer holds every file's documents in file order and the total is the sum of the per-file counts |

## Left out

- Index creation (`create`: the schema, the tokenizer, `rmtree`, `makedirs`, `create_in`): filesystem and Whoosh side effects. The writer is the list of documents added to it so far.
- Whoosh's `add_document`, `commit` and `save_index`: a foreign library. `add_document` is an append to the document list, and no commit is modelled.
- JSON loading and the choice of the first key as the lemma: parsing is a foreign call. A file is given as a `Record` value.
- File discovery (`FindFiles.find_recursive`): a helper that is not part of this model. The files are given as a sequence.
- The `print` calls: console output only.
- Text.ToLower: covers ASCII and the Latin-1 upper-case block only. Other characters are their own lower case, so Python's full Unicode case mapping is not modelled.
- A missing slot key (`KeyError` on `form[sp]`) or a missing `word` key: the `Form` datatype always has all six slots, so the model assumes well-formed files.
- Cross-lemma collision detection and "word (lemma)" rewriting: the code does not contain them.
- LetterKey.FirstLetterForIndex: follows the code, so an empty word raises `IndexError` (`word_ca[0]`) instead of giving an empty key. An infinitive raw word such as "parlar/" therefore aborts the run.
- IndexCreator.ProcessFile: on an exception it returns only `Failure(IndexError)`. The documents that `add_document` had already received for earlier pieces and earlier files stay in the uncommitted writer in the source; the model does not keep them, because the exception propagates out of `process_files` and no commit follows. The same holds for `IndexCreator.ProcessFrom` and `Corpus.RunFrom`.
- Python's `str.split` for separators longer than one character: the source only splits on "/".
