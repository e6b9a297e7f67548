/** `write_entry`: the document handed to the index writer for one emitted
    word. The writer itself is replaced by the list of documents added to
    it, in order. */
module IndexWriter {
  import opened Wrappers
  import opened LetterKey
  import opened EntryBuilder

  /** One stored document: the fields `verb_form`, `file_path` and
      `index_letter` (`None` when no letter is stored). */
  datatype Doc = Doc(verbForm: string, filePath: string, indexLetter: Option<string>)

  /** An entry `write_entry` cannot write: an infinitive whose word is
      empty, whose navigation letter lookup raises. */
  predicate Faulty(e: Entry) {
    e.isInfinitive && e.word == ""
  }

  /** Every entry of a list can be written. */
  predicate Writable(es: seq<Entry>) {
    forall k :: 0 <= k < |es| ==> !Faulty(es[k])
  }

  /** The document stored for an entry that can be written: the word, the
      file, and a navigation letter for infinitives only. */
  function DocOf(e: Entry): Doc
    requires !Faulty(e)
  {
    Doc(e.word, e.file, if e.isInfinitive then Some([LetterOf(e.word[0])]) else None)
  }

  /** The documents stored for a list of writable entries, in order. */
  function DocsFor(es: seq<Entry>): (r: seq<Doc>)
    requires Writable(es)
    ensures |r| == |es|
    ensures forall k :: 0 <= k < |es| ==> r[k] == DocOf(es[k])
  {
    seq(|es|, k requires 0 <= k < |es| => DocOf(es[k]))
  }

  /** `write_entry`: an index letter is computed only for infinitives; the
      call raises exactly when that computation does, on an empty word. */
  function WriteEntry(verbForm: string, filePath: string, infinitive: bool): (r: Result<Doc, Error>)
    ensures r.Failure? <==> Faulty(Entry(verbForm, filePath, infinitive))
    ensures r.Success? ==> r.value == DocOf(Entry(verbForm, filePath, infinitive))
    ensures r.Success? ==> (r.value.indexLetter.Some? <==> infinitive)
    ensures r.Success? && infinitive ==>
              FirstLetterForIndex(Some(verbForm)) == Success(r.value.indexLetter.value)
  {
    var letter := if infinitive then FirstLetterForIndex(Some(verbForm)) else Success("");
    match letter
    case Failure(e) => Failure(e)
    case Success(s) => Success(Doc(verbForm, filePath, if infinitive then Some(s) else None))
  }

  /** A stored document has a navigation letter exactly when its entry is
      an infinitive, and the letter is a single plain lower-case character. */
  lemma LetterIffInfinitive(e: Entry)
    requires !Faulty(e)
    ensures DocOf(e).indexLetter.Some? <==> e.isInfinitive
    ensures e.isInfinitive ==>
              |DocOf(e).indexLetter.value| == 1 && IsNavigationLetter(DocOf(e).indexLetter.value[0])
  {
  }

  /** Each document written for a list of entries keeps its entry's word
      and file, has a navigation letter exactly when the entry is an
      infinitive, and that letter is the key `_get_first_letter_for_index`
      gives the word. */
  lemma DocsCarryKeys(es: seq<Entry>)
    requires Writable(es)
    ensures forall k :: 0 <= k < |es| ==>
              && DocsFor(es)[k].verbForm == es[k].word
              && DocsFor(es)[k].filePath == es[k].file
              && (DocsFor(es)[k].indexLetter.Some? <==> es[k].isInfinitive)
    ensures forall k :: 0 <= k < |es| && es[k].isInfinitive ==>
              FirstLetterForIndex(Some(es[k].word)) == Success(DocsFor(es)[k].indexLetter.value)
  {
    forall k | 0 <= k < |es|
      ensures DocsFor(es)[k].indexLetter.Some? <==> es[k].isInfinitive
    {
      LetterIffInfinitive(es[k]);
    }
  }

  lemma WritableAppend(a: seq<Entry>, b: seq<Entry>)
    ensures Writable(a + b) <==> Writable(a) && Writable(b)
  {
    if Writable(a) && Writable(b) {
      forall k | 0 <= k < |a + b| ensures !Faulty((a + b)[k]) {
        if k >= |a| { assert (a + b)[k] == b[k - |a|]; }
      }
    }
    if Writable(a + b) {
      forall k | 0 <= k < |a| ensures !Faulty(a[k]) {
        assert (a + b)[k] == a[k];
      }
      forall k | 0 <= k < |b| ensures !Faulty(b[k]) {
        assert (a + b)[|a| + k] == b[k];
      }
    }
  }

  lemma DocsForAppend(a: seq<Entry>, b: seq<Entry>)
    requires Writable(a) && Writable(b)
    ensures Writable(a + b)
    ensures DocsFor(a + b) == DocsFor(a) + DocsFor(b)
  {
    WritableAppend(a, b);
  }
}
