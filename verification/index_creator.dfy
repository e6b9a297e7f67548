/** `_write_term` and `_process_file`, with the writer's state (the
    documents added so far) threaded through.
    `ProcessFrom` follows the source's control flow, writing each piece as
    it is reached and stopping at the first exception; the lemmas relate it
    to the walk of `EntryBuilder`, and the methods are the loops themselves. */
module IndexCreator {
  import opened Wrappers
  import opened LetterKey
  import opened Paradigm
  import opened EntryBuilder
  import opened IndexWriter

  /** The state of one file's processing: its `indexed` set and the
      documents the writer holds. */
  datatype FileState = FileState(indexed: set<string>, docs: seq<Doc>)

  /** The result of `_process_file`: the writer's documents afterwards and
      the returned count. */
  datatype FileOutcome = FileOutcome(docs: seq<Doc>, count: nat)

  /** `_write_term`: write the document, then add the word to `indexed`. */
  function WriteTerm(st: FileState, file: string, word: string, infinitive: bool): (r: Result<FileState, Error>)
    ensures r.Failure? <==> Faulty(Entry(word, file, infinitive))
    ensures r.Success? ==> r.value.indexed == st.indexed + {word}
    ensures r.Success? ==> r.value.docs == st.docs + [DocOf(Entry(word, file, infinitive))]
  {
    match WriteEntry(word, file, infinitive)
    case Failure(e) => Failure(e)
    case Success(d) => Success(FileState(st.indexed + {word}, st.docs + [d]))
  }

  /** The loop over the pieces of one raw word. */
  function WritePieces(st: FileState, file: string, infinitive: bool, pieces: seq<string>): Result<FileState, Error>
    decreases |pieces|
  {
    if |pieces| == 0 then Success(st)
    else
      match WriteTerm(st, file, pieces[0], infinitive)
      case Failure(e) => Failure(e)
      case Success(st1) => WritePieces(st1, file, infinitive, pieces[1..])
  }

  /** One raw word: skipped when the raw string is in `indexed`, otherwise
      split, stripped and written piece by piece. */
  function ProcessWord(st: FileState, file: string, o: Occurrence): Result<FileState, Error> {
    if o.raw in st.indexed then Success(st)
    else WritePieces(st, file, o.formName == InfinitiveName, Pieces(o.raw))
  }

  /** Continue with the raw words `occs` after a step, unless it raised. */
  function Then(r: Result<FileState, Error>, file: string, occs: seq<Occurrence>): Result<FileState, Error>
    decreases |occs|, 1
  {
    match r
    case Failure(e) => Failure(e)
    case Success(st) => ProcessFrom(st, file, occs)
  }

  /** The raw words of a file, in visiting order. */
  function ProcessFrom(st: FileState, file: string, occs: seq<Occurrence>): Result<FileState, Error>
    decreases |occs|, 0
  {
    if |occs| == 0 then Success(st)
    else Then(ProcessWord(st, file, occs[0]), file, occs[1..])
  }

  /** `_process_file` on a parsed record. */
  function ProcessFile(docs: seq<Doc>, file: string, rec: Record): Result<FileOutcome, Error> {
    match ProcessFrom(FileState({}, docs), file, Occurrences(rec.forms))
    case Failure(e) => Failure(e)
    case Success(st) => Success(FileOutcome(st.docs, |st.indexed|))
  }

  /** `_write_term` keeps the writer and `indexed` in step with the entries
      emitted so far: if the documents are those of `es` and `indexed` holds
      the words of `es`, then after writing one more entry they are those of
      `es` extended by that entry. */
  lemma WriteTermKeepsInStep(st: FileState, es: seq<Entry>, file: string, word: string, infinitive: bool)
    requires Writable(es) && st.docs == DocsFor(es) && st.indexed == Words(es)
    ensures var e := Entry(word, file, infinitive);
      WriteTerm(st, file, word, infinitive).Success? ==>
        && Writable(es + [e])
        && WriteTerm(st, file, word, infinitive).value.docs == DocsFor(es + [e])
        && WriteTerm(st, file, word, infinitive).value.indexed == Words(es + [e])
  {
    var e := Entry(word, file, infinitive);
    if !Faulty(e) {
      DocsForAppend(es, [e]);
      WordsAppend(es, [e]);
      assert Words([e]) == {word};
    }
  }

  /** Writing the first piece, when it can be written, then the rest. */
  lemma WritePiecesCons(st: FileState, file: string, infinitive: bool, pieces: seq<string>)
    requires |pieces| > 0 && !Faulty(Entry(pieces[0], file, infinitive))
    ensures WritePieces(st, file, infinitive, pieces)
            == WritePieces(FileState(st.indexed + {pieces[0]}, st.docs + [DocOf(Entry(pieces[0], file, infinitive))]),
                           file, infinitive, pieces[1..])
  {
  }

  /** Writing the pieces of a raw word one by one succeeds when none of
      their entries is faulty: every piece is added to `indexed` and one
      document per piece is written, in order. */
  lemma {:induction false} WritePiecesWritable(st: FileState, file: string, infinitive: bool, pieces: seq<string>)
    requires Writable(EntriesFor(pieces, file, infinitive))
    ensures WritePieces(st, file, infinitive, pieces)
            == Success(FileState(st.indexed + Elements(pieces),
                                 st.docs + DocsFor(EntriesFor(pieces, file, infinitive))))
    decreases |pieces|
  {
    if |pieces| == 0 {
      WritePiecesNone(st, file, infinitive, pieces);
    } else {
      var st1 := FileState(st.indexed + {pieces[0]}, st.docs + [DocOf(Entry(pieces[0], file, infinitive))]);
      WritePiecesFirst(st, file, infinitive, pieces);
      WritePiecesWritable(st1, file, infinitive, pieces[1..]);
    }
  }

  lemma WritePiecesNone(st: FileState, file: string, infinitive: bool, pieces: seq<string>)
    requires |pieces| == 0
    ensures Writable(EntriesFor(pieces, file, infinitive))
    ensures WritePieces(st, file, infinitive, pieces)
            == Success(FileState(st.indexed + Elements(pieces),
                                 st.docs + DocsFor(EntriesFor(pieces, file, infinitive))))
  {
    assert Elements(pieces) == {};
    assert DocsFor(EntriesFor(pieces, file, infinitive)) == [];
    assert st.docs + [] == st.docs;
    assert st.indexed + {} == st.indexed;
  }

  /** The first piece of a writable list, written: the state the rest
      starts from, and how its final state relates to the whole list's. */
  lemma WritePiecesFirst(st: FileState, file: string, infinitive: bool, pieces: seq<string>)
    requires |pieces| > 0 && Writable(EntriesFor(pieces, file, infinitive))
    ensures var st1 := FileState(st.indexed + {pieces[0]}, st.docs + [DocOf(Entry(pieces[0], file, infinitive))]);
      && Writable(EntriesFor(pieces[1..], file, infinitive))
      && WritePieces(st, file, infinitive, pieces) == WritePieces(st1, file, infinitive, pieces[1..])
      && st1.indexed + Elements(pieces[1..]) == st.indexed + Elements(pieces)
      && st1.docs + DocsFor(EntriesFor(pieces[1..], file, infinitive))
         == st.docs + DocsFor(EntriesFor(pieces, file, infinitive))
  {
    var es := EntriesFor(pieces, file, infinitive);
    var head := [Entry(pieces[0], file, infinitive)];
    var tail := EntriesFor(pieces[1..], file, infinitive);
    EmitPiecesStep(pieces, file, infinitive);
    WritableAppend(head, tail);
    WritePiecesCons(st, file, infinitive, pieces);
    DocsForAppend(head, tail);
    assert DocsFor(head) == [DocOf(head[0])];
    AppendAssoc(st.docs, DocsFor(head), DocsFor(tail));
    UnionAssoc(st.indexed, {pieces[0]}, Elements(pieces[1..]));
  }

  /** What a list gained past a prefix `a`, split at a longer prefix `b`. */
  lemma TailSplit(a: seq<Entry>, b: seq<Entry>, c: seq<Entry>)
    requires a <= b <= c
    ensures c[|a|..] == b[|a|..] + c[|b|..]
  {
  }

  /** ... and raises when one of them is faulty. */
  lemma {:induction false} WritePiecesFaulty(st: FileState, file: string, infinitive: bool, pieces: seq<string>)
    requires !Writable(EntriesFor(pieces, file, infinitive))
    ensures WritePieces(st, file, infinitive, pieces) == Failure(IndexError)
    decreases |pieces|
  {
    var head := [Entry(pieces[0], file, infinitive)];
    var tail := EntriesFor(pieces[1..], file, infinitive);
    EmitPiecesStep(pieces, file, infinitive);
    WritableAppend(head, tail);
    if !Faulty(head[0]) {
      WritePiecesCons(st, file, infinitive, pieces);
      var st1 := FileState(st.indexed + {pieces[0]}, st.docs + [DocOf(head[0])]);
      WritePiecesFaulty(st1, file, infinitive, pieces[1..]);
    }
  }

  /** One raw word, against one step of the walk: the step raises exactly
      when the entries the walk emits for it include a faulty one. */
  lemma ProcessWordMeaning(w: Walk, docs: seq<Doc>, file: string, o: Occurrence)
    ensures var w1 := StepWord(w, file, o);
      var added := w1.entries[|w.entries|..];
      ProcessWord(FileState(w.indexed, docs), file, o)
        == if Writable(added) then Success(FileState(w1.indexed, docs + DocsFor(added)))
           else Failure(IndexError)
  {
    var w1 := StepWord(w, file, o);
    if o.raw in w.indexed {
      assert w1.entries[|w.entries|..] == [];
      assert DocsFor([]) == [];
      assert docs + [] == docs;
    } else {
      var inf := o.formName == InfinitiveName;
      assert w1.entries[|w.entries|..] == EntriesFor(Pieces(o.raw), file, inf);
      if Writable(EntriesFor(Pieces(o.raw), file, inf)) {
        WritePiecesWritable(FileState(w.indexed, docs), file, inf, Pieces(o.raw));
      } else {
        WritePiecesFaulty(FileState(w.indexed, docs), file, inf, Pieces(o.raw));
      }
    }
  }

  /** A run of raw words, against the walk over the same words: it raises
      exactly when the walk emits a faulty entry, and otherwise ends with
      the walk's `indexed` set and one document per emitted entry. */
  lemma {:induction false} ProcessFromMeaning(w: Walk, docs: seq<Doc>, file: string, occs: seq<Occurrence>)
    ensures |w.entries| <= |WalkFrom(w, file, occs).entries|
    ensures var w2 := WalkFrom(w, file, occs);
      var added := w2.entries[|w.entries|..];
      ProcessFrom(FileState(w.indexed, docs), file, occs)
        == if Writable(added) then Success(FileState(w2.indexed, docs + DocsFor(added)))
           else Failure(IndexError)
    decreases |occs|
  {
    var st := FileState(w.indexed, docs);
    var w2 := WalkFrom(w, file, occs);
    WalkGrows(w, file, occs);
    var added := w2.entries[|w.entries|..];
    if |occs| == 0 {
      assert added == [];
      assert DocsFor(added) == [];
      assert docs + [] == docs;
    } else {
      var w1 := StepWord(w, file, occs[0]);
      WalkGrows(w1, file, occs[1..]);
      var added1 := w1.entries[|w.entries|..];
      var added2 := w2.entries[|w1.entries|..];
      assert w2 == WalkFrom(w1, file, occs[1..]);
      TailSplit(w.entries, w1.entries, w2.entries);
      WritableAppend(added1, added2);
      ProcessWordMeaning(w, docs, file, occs[0]);
      assert ProcessFrom(st, file, occs) == Then(ProcessWord(st, file, occs[0]), file, occs[1..]);
      if Writable(added1) {
        var docs1 := docs + DocsFor(added1);
        ProcessFromMeaning(w1, docs1, file, occs[1..]);
        assert ProcessFrom(st, file, occs) == ProcessFrom(FileState(w1.indexed, docs1), file, occs[1..]);
        if Writable(added2) {
          DocsForAppend(added1, added2);
          AppendAssoc(docs, DocsFor(added1), DocsFor(added2));
        }
      }
    }
  }

  /** What `_process_file` does to the writer and returns: it raises
      exactly when the file emits a faulty entry; otherwise it adds one
      document per emitted entry, in emission order, and returns the number
      of distinct pieces of all the file's raw words. */
  lemma ProcessFileMeaning(docs: seq<Doc>, file: string, rec: Record)
    ensures var es := BuildEntries(file, rec).entries;
      ProcessFile(docs, file, rec)
        == if Writable(es)
           then Success(FileOutcome(docs + DocsFor(es), |AllPieces(Occurrences(rec.forms))|))
           else Failure(IndexError)
  {
    var w0 := Walk({}, []);
    ProcessFromMeaning(w0, docs, file, Occurrences(rec.forms));
    assert BuildEntries(file, rec).entries[|w0.entries|..] == BuildEntries(file, rec).entries;
    IndexedIsAllPieces(file, rec);
  }

  /** Processing `a + b` is processing `a`, then, unless it raised, `b`. */
  lemma {:induction false} ProcessAppend(st: FileState, file: string, a: seq<Occurrence>, b: seq<Occurrence>)
    ensures ProcessFrom(st, file, a + b) == Then(ProcessFrom(st, file, a), file, b)
    decreases |a|
  {
    if |a| == 0 {
      assert a + b == b;
    } else {
      assert (a + b)[1..] == a[1..] + b;
      var step := ProcessWord(st, file, a[0]);
      if step.Success? {
        ProcessAppend(step.value, file, a[1..], b);
      }
    }
  }

  lemma WritePiecesFrom(st: FileState, file: string, infinitive: bool, pieces: seq<string>, m: nat)
    requires m < |pieces|
    ensures WritePieces(st, file, infinitive, pieces[m..])
            == match WriteTerm(st, file, pieces[m], infinitive)
               case Failure(e) => Failure(e)
               case Success(st1) => WritePieces(st1, file, infinitive, pieces[m + 1..])
  {
    assert pieces[m..][1..] == pieces[m + 1..];
  }

  /** The innermost loop of `_process_file`, over the pieces of one raw
      word: it raises exactly when a piece cannot be written, and otherwise
      adds every piece to `indexed` and writes one document per piece. */
  method WritePiecesLoop(st0: FileState, file: string, infinitive: bool, pieces: seq<string>)
    returns (r: Result<FileState, Error>)
    ensures r == WritePieces(st0, file, infinitive, pieces)
    ensures r.Failure? <==> !Writable(EntriesFor(pieces, file, infinitive))
    ensures r.Success? ==>
              r.value == FileState(st0.indexed + Elements(pieces),
                                   st0.docs + DocsFor(EntriesFor(pieces, file, infinitive)))
  {
    ghost var target := WritePieces(st0, file, infinitive, pieces);
    var st := st0;
    assert pieces[0..] == pieces;
    var m := 0;
    while m < |pieces|
      invariant 0 <= m <= |pieces|
      invariant WritePieces(st, file, infinitive, pieces[m..]) == target
    {
      WritePiecesFrom(st, file, infinitive, pieces, m);
      var written := WriteTerm(st, file, pieces[m], infinitive);
      if written.Failure? {
        r := Failure(written.error);
        WritePiecesFaulty(st0, file, infinitive, pieces);
        return;
      }
      st := written.value;
      m := m + 1;
    }
    r := Success(st);
    if Writable(EntriesFor(pieces, file, infinitive)) {
      WritePiecesWritable(st0, file, infinitive, pieces);
    } else {
      WritePiecesFaulty(st0, file, infinitive, pieces);
    }
  }

  /** The loop over the raw words of one slot, with the skip test on the
      raw string. */
  method ProcessWordsLoop(st0: FileState, file: string, words: seq<string>, formName: string)
    returns (r: Result<FileState, Error>)
    ensures r == ProcessFrom(st0, file, WordOccurrences(words, formName))
  {
    ghost var target := ProcessFrom(st0, file, WordOccurrences(words, formName));
    var infinitive := formName == InfinitiveName;
    var st := st0;
    assert words[0..] == words;
    var k := 0;
    while k < |words|
      invariant 0 <= k <= |words|
      invariant ProcessFrom(st, file, WordOccurrences(words[k..], formName)) == target
    {
      var word := words[k];
      WordOccurrencesFrom(words, k, formName);
      assert WordOccurrences(words[k..], formName)[1..] == WordOccurrences(words[k + 1..], formName);
      if word !in st.indexed {
        var written := WritePiecesLoop(st, file, infinitive, Pieces(word));
        if written.Failure? {
          return Failure(written.error);
        }
        st := written.value;
      }
      k := k + 1;
    }
    r := Success(st);
  }

  /** The loop over the six slots of one form, in their fixed order. */
  method ProcessSlotsLoop(st0: FileState, file: string, form: Form)
    returns (r: Result<FileState, Error>)
    ensures r == ProcessFrom(st0, file, FormOccurrences(form))
  {
    var slots := Slots(form);
    ghost var target := ProcessFrom(st0, file, FormOccurrences(form));
    var st := st0;
    assert slots[0..] == slots;
    var j := 0;
    while j < |slots|
      invariant 0 <= j <= |slots|
      invariant ProcessFrom(st, file, SlotOccurrences(slots[j..], form.name)) == target
    {
      SlotOccurrencesFrom(slots, j, form.name);
      ProcessAppend(st, file, WordOccurrences(slots[j], form.name), SlotOccurrences(slots[j + 1..], form.name));
      var done := ProcessWordsLoop(st, file, slots[j], form.name);
      if done.Failure? {
        return Failure(done.error);
      }
      st := done.value;
      j := j + 1;
    }
    r := Success(st);
  }

  /** `_process_file` as the loop over the forms of the record, in file
      order. It raises exactly when the file emits a faulty entry; otherwise
      the writer gains one document per emitted entry and the count is the
      size of the file's `indexed` set. */
  method ProcessFileLoops(docs0: seq<Doc>, file: string, rec: Record) returns (r: Result<FileOutcome, Error>)
    ensures r == ProcessFile(docs0, file, rec)
    ensures r.Failure? <==> !Writable(BuildEntries(file, rec).entries)
    ensures r.Success? ==> r.value.docs == docs0 + DocsFor(BuildEntries(file, rec).entries)
    ensures r.Success? ==> r.value.count == |BuildEntries(file, rec).indexed|
  {
    var forms := rec.forms;
    ghost var target := ProcessFrom(FileState({}, docs0), file, Occurrences(forms));
    var st := FileState({}, docs0);
    assert forms[0..] == forms;
    var i := 0;
    while i < |forms|
      invariant 0 <= i <= |forms|
      invariant ProcessFrom(st, file, Occurrences(forms[i..])) == target
    {
      OccurrencesFrom(forms, i);
      ProcessAppend(st, file, FormOccurrences(forms[i]), Occurrences(forms[i + 1..]));
      var done := ProcessSlotsLoop(st, file, forms[i]);
      if done.Failure? {
        r := Failure(done.error);
        ProcessFileMeaning(docs0, file, rec);
        IndexedIsAllPieces(file, rec);
        return;
      }
      st := done.value;
      i := i + 1;
    }
    r := Success(FileOutcome(st.docs, |st.indexed|));
    ProcessFileMeaning(docs0, file, rec);
    IndexedIsAllPieces(file, rec);
  }
}
