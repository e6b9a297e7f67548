/** The loop of `process_files`: every discovered file is processed in
    turn against the same writer, and the per-file counts are summed. The
    loop is a fold of a per-file step; its properties are proved once for
    any step that behaves as `_process_file` does. */
module Corpus {
  import opened Wrappers
  import opened LetterKey
  import opened Paradigm
  import opened EntryBuilder
  import opened IndexWriter
  import opened IndexCreator

  /** One source file of the corpus: its path and its parsed content. */
  datatype SourceFile = SourceFile(path: string, record: Record)

  /** The writer's documents and the running total of `process_files`. */
  datatype RunOutcome = RunOutcome(docs: seq<Doc>, total: nat)

  /** `_process_file` applied to one source file. */
  function FileStep(docs: seq<Doc>, f: SourceFile): Result<FileOutcome, Error> {
    ProcessFile(docs, f.path, f.record)
  }

  /** The loop of `process_files` from an accumulated state: run the step
      on each file in turn and add its count to the total; an exception
      from any file ends the run. */
  function RunFrom(step: (seq<Doc>, SourceFile) -> Result<FileOutcome, Error>,
                   acc: RunOutcome, files: seq<SourceFile>): Result<RunOutcome, Error>
    decreases |files|
  {
    if |files| == 0 then Success(acc)
    else
      match step(acc.docs, files[0])
      case Failure(e) => Failure(e)
      case Success(out) => RunFrom(step, RunOutcome(out.docs, acc.total + out.count), files[1..])
  }

  /** `process_files`: the total starts at zero. */
  function ProcessFiles(docs: seq<Doc>, files: seq<SourceFile>): Result<RunOutcome, Error> {
    RunFrom(FileStep, RunOutcome(docs, 0), files)
  }

  /** The entries one source file emits. */
  function FileEntries(f: SourceFile): seq<Entry> {
    BuildEntries(f.path, f.record).entries
  }

  /** The count one source file returns when it does not raise. */
  function FileCount(f: SourceFile): nat {
    |AllPieces(Occurrences(f.record.forms))|
  }

  /** What processing one file amounts to, given the entries `ent` it emits
      and the count `cnt` it returns: it raises exactly when one of the
      entries is faulty, and otherwise appends their documents. */
  function FileMeaning(ent: SourceFile -> seq<Entry>, cnt: SourceFile -> nat,
                       docs: seq<Doc>, f: SourceFile): Result<FileOutcome, Error> {
    if Writable(ent(f)) then Success(FileOutcome(docs + DocsFor(ent(f)), cnt(f)))
    else Failure(IndexError)
  }

  /** A step that behaves as `FileMeaning` says on every input. */
  ghost predicate StepMeans(step: (seq<Doc>, SourceFile) -> Result<FileOutcome, Error>,
                            ent: SourceFile -> seq<Entry>, cnt: SourceFile -> nat) {
    forall docs, f :: step(docs, f) == FileMeaning(ent, cnt, docs, f)
  }

  /** No file of the corpus emits a faulty entry. */
  predicate CorpusWritable(ent: SourceFile -> seq<Entry>, files: seq<SourceFile>) {
    forall i :: 0 <= i < |files| ==> Writable(ent(files[i]))
  }

  /** Every file's documents, file after file. */
  function CorpusDocs(ent: SourceFile -> seq<Entry>, files: seq<SourceFile>): seq<Doc>
    requires CorpusWritable(ent, files)
    decreases |files|
  {
    if |files| == 0 then [] else DocsFor(ent(files[0])) + CorpusDocs(ent, files[1..])
  }

  /** The sum of the per-file counts. */
  function CorpusTotal(cnt: SourceFile -> nat, files: seq<SourceFile>): nat
    decreases |files|
  {
    if |files| == 0 then 0 else cnt(files[0]) + CorpusTotal(cnt, files[1..])
  }

  /** `_process_file` is such a step, for the entries of its walk and the
      size of its `indexed` set. */
  lemma FileStepMeans()
    ensures StepMeans(FileStep, FileEntries, FileCount)
  {
    forall docs, f ensures FileStep(docs, f) == FileMeaning(FileEntries, FileCount, docs, f) {
      ProcessFileMeaning(docs, f.path, f.record);
    }
  }

  /** The corpus is writable exactly when its first file and the rest are. */
  lemma CorpusWritableCons(ent: SourceFile -> seq<Entry>, files: seq<SourceFile>)
    requires |files| > 0
    ensures CorpusWritable(ent, files) <==> Writable(ent(files[0])) && CorpusWritable(ent, files[1..])
  {
    if Writable(ent(files[0])) && CorpusWritable(ent, files[1..]) {
      forall i | 0 <= i < |files| ensures Writable(ent(files[i])) {
        if i > 0 { assert files[i] == files[1..][i - 1]; }
      }
    }
    if CorpusWritable(ent, files) {
      forall i | 0 <= i < |files[1..]| ensures Writable(ent(files[1..][i])) {
        assert files[1..][i] == files[i + 1];
      }
    }
  }

  /** The run over a whole corpus, for any step that behaves as
      `_process_file`: it raises exactly when some file emits a faulty
      entry; otherwise the writer holds every file's documents in file
      order and the total grows by the sum of the per-file counts. */
  lemma {:induction false} RunMeaning(step: (seq<Doc>, SourceFile) -> Result<FileOutcome, Error>,
                                      ent: SourceFile -> seq<Entry>, cnt: SourceFile -> nat,
                                      acc: RunOutcome, files: seq<SourceFile>)
    requires StepMeans(step, ent, cnt)
    ensures RunFrom(step, acc, files)
            == if CorpusWritable(ent, files)
               then Success(RunOutcome(acc.docs + CorpusDocs(ent, files), acc.total + CorpusTotal(cnt, files)))
               else Failure(IndexError)
    decreases |files|
  {
    if |files| == 0 {
      assert acc.docs + [] == acc.docs;
    } else {
      var f := files[0];
      assert step(acc.docs, f) == FileMeaning(ent, cnt, acc.docs, f);
      CorpusWritableCons(ent, files);
      if Writable(ent(f)) {
        var acc1 := RunOutcome(acc.docs + DocsFor(ent(f)), acc.total + cnt(f));
        assert RunFrom(step, acc, files) == RunFrom(step, acc1, files[1..]);
        RunMeaning(step, ent, cnt, acc1, files[1..]);
        if CorpusWritable(ent, files) {
          AppendAssoc(acc.docs, DocsFor(ent(f)), CorpusDocs(ent, files[1..]));
        }
      }
    }
  }

  /** Peeling the file at position `i` off the rest of the run. */
  lemma RunStep(step: (seq<Doc>, SourceFile) -> Result<FileOutcome, Error>,
                acc: RunOutcome, files: seq<SourceFile>, i: nat)
    requires i < |files|
    ensures RunFrom(step, acc, files[i..])
            == match step(acc.docs, files[i])
               case Failure(e) => Failure(e)
               case Success(out) => RunFrom(step, RunOutcome(out.docs, acc.total + out.count), files[i + 1..])
  {
    assert files[i..][1..] == files[i + 1..];
  }

  /** `process_files` as the source's loop over the discovered files, with
      `_process_file` passed in as `step` (`FileStepMeans` shows that the
      real one qualifies, and `ProcessFileLoops` computes it). */
  method ProcessFilesLoop(step: (seq<Doc>, SourceFile) -> Result<FileOutcome, Error>,
                          ghost ent: SourceFile -> seq<Entry>, ghost cnt: SourceFile -> nat,
                          docs0: seq<Doc>, files: seq<SourceFile>) returns (r: Result<RunOutcome, Error>)
    requires StepMeans(step, ent, cnt)
    ensures r == RunFrom(step, RunOutcome(docs0, 0), files)
    ensures r.Failure? <==> !CorpusWritable(ent, files)
    ensures r.Success? ==> r.value.docs == docs0 + CorpusDocs(ent, files)
    ensures r.Success? ==> r.value.total == CorpusTotal(cnt, files)
  {
    ghost var target := RunFrom(step, RunOutcome(docs0, 0), files);
    RunMeaning(step, ent, cnt, RunOutcome(docs0, 0), files);
    var docs := docs0;
    var total: nat := 0;
    assert files[0..] == files;
    var i := 0;
    while i < |files|
      invariant 0 <= i <= |files|
      invariant RunFrom(step, RunOutcome(docs, total), files[i..]) == target
    {
      RunStep(step, RunOutcome(docs, total), files, i);
      var out := step(docs, files[i]);
      if out.Failure? {
        return Failure(out.error);
      }
      docs := out.value.docs;
      total := total + out.value.count;
      i := i + 1;
    }
    r := Success(RunOutcome(docs, total));
  }

  /** `process_files` with the real `_process_file`: it raises exactly when
      some file emits a faulty entry; otherwise the writer holds every
      file's documents in file order and the total is the sum of the
      per-file counts. */
  method ProcessFilesRun(docs0: seq<Doc>, files: seq<SourceFile>) returns (r: Result<RunOutcome, Error>)
    ensures r == ProcessFiles(docs0, files)
    ensures r.Failure? <==> !CorpusWritable(FileEntries, files)
    ensures r.Success? ==> r.value.docs == docs0 + CorpusDocs(FileEntries, files)
    ensures r.Success? ==> r.value.total == CorpusTotal(FileCount, files)
  {
    FileStepMeans();
    r := ProcessFilesLoop(FileStep, FileEntries, FileCount, docs0, files);
  }
}
