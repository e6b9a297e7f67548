/** The flattening and de-duplication of `_process_file`, without the index
    writer: which entries one file produces, in which order, and what its
    `indexed` set ends up holding.

    The de-duplication test looks up the RAW word (before splitting on `/`
    and stripping) in a set that only ever receives split, stripped pieces.
    So a raw word is skipped only when it is itself a clean piece that was
    emitted before; a raw word with a separator or surrounding whitespace is
    never skipped, and its pieces can be emitted again. */
module EntryBuilder {
  import opened Text
  import opened Paradigm

  /** One emitted entry: the word handed to the writer, the file it came
      from, and whether its form is the infinitive. */
  datatype Entry = Entry(word: string, file: string, isInfinitive: bool)

  /** What one file's processing has built so far: the `indexed` set and
      the entries emitted, in emission order. */
  datatype Walk = Walk(indexed: set<string>, entries: seq<Entry>)

  /** The separator between alternate spellings in a raw word. */
  const Separator: char := '/'

  /** A word as splitting and stripping produce it: no separator and no
      surrounding whitespace. */
  predicate Canonical(w: string) {
    Separator !in w && Trimmed(w)
  }

  /** The pieces of a raw word: split on the separator, each part stripped. */
  function Pieces(raw: string): (r: seq<string>)
    ensures |r| == |Split(raw, Separator)|
    ensures forall k :: 0 <= k < |r| ==> Canonical(r[k])
  {
    var parts := Split(raw, Separator);
    seq(|parts|, k requires 0 <= k < |parts| => Strip(parts[k]))
  }

  /** The distinct strings of a list. */
  function Elements(s: seq<string>): set<string> {
    set p | p in s
  }

  function PieceSet(raw: string): set<string> {
    Elements(Pieces(raw))
  }

  /** A raw word is its own single piece exactly when it is canonical. */
  lemma CanonicalIsOwnPiece(raw: string)
    ensures Canonical(raw) <==> Pieces(raw) == [raw]
  {
    if Canonical(raw) {
      SplitNoSeparator(raw, Separator);
    }
    if Pieces(raw) == [raw] {
      assert Canonical(Pieces(raw)[0]);
    }
  }

  /** A raw word holding the separator yields two pieces or more. */
  lemma SeparatorGivesSeveralPieces(raw: string)
    requires Separator in raw
    ensures |Pieces(raw)| >= 2
  {
    SplitAtLeastTwo(raw, Separator);
  }

  /** When no part of a raw word has surrounding whitespace, joining its
      pieces with the separator gives the raw word back. */
  lemma PiecesJoin(raw: string)
    requires forall k :: 0 <= k < |Split(raw, Separator)| ==> Trimmed(Split(raw, Separator)[k])
    ensures Join(Pieces(raw), Separator) == raw
  {
    assert Pieces(raw) == Split(raw, Separator);
    JoinSplit(raw, Separator);
  }

  /** The entries written for a list of pieces, one per piece, in order. */
  function EntriesFor(pieces: seq<string>, file: string, infinitive: bool): (r: seq<Entry>)
    ensures |r| == |pieces|
    ensures forall k :: 0 <= k < |r| ==> r[k] == Entry(pieces[k], file, infinitive)
  {
    seq(|pieces|, k requires 0 <= k < |pieces| => Entry(pieces[k], file, infinitive))
  }

  /** The inner loop over the pieces of one raw word: each piece is
      emitted and then added to `indexed`. */
  function EmitPieces(w: Walk, file: string, infinitive: bool, pieces: seq<string>): (r: Walk)
    ensures r.indexed == w.indexed + Elements(pieces)
    ensures r.entries == w.entries + EntriesFor(pieces, file, infinitive)
    decreases |pieces|
  {
    if |pieces| == 0 then w
    else
      var w1 := Walk(w.indexed + {pieces[0]}, w.entries + [Entry(pieces[0], file, infinitive)]);
      EmitPiecesStep(pieces, file, infinitive);
      UnionAssoc(w.indexed, {pieces[0]}, Elements(pieces[1..]));
      AppendAssoc(w.entries, [Entry(pieces[0], file, infinitive)], EntriesFor(pieces[1..], file, infinitive));
      EmitPieces(w1, file, infinitive, pieces[1..])
  }

  lemma UnionAssoc<T>(a: set<T>, b: set<T>, c: set<T>)
    ensures a + b + c == a + (b + c)
  {
  }

  lemma AppendAssoc<T>(a: seq<T>, b: seq<T>, c: seq<T>)
    ensures a + b + c == a + (b + c)
  {
  }

  lemma EmitPiecesStep(pieces: seq<string>, file: string, infinitive: bool)
    requires |pieces| > 0
    ensures EntriesFor(pieces, file, infinitive)
            == [Entry(pieces[0], file, infinitive)] + EntriesFor(pieces[1..], file, infinitive)
    ensures Elements(pieces) == {pieces[0]} + Elements(pieces[1..])
  {
    EntriesForCons(pieces, file, infinitive);
    ElementsCons(pieces);
  }

  lemma EntriesForCons(pieces: seq<string>, file: string, infinitive: bool)
    requires |pieces| > 0
    ensures EntriesFor(pieces, file, infinitive)
            == [Entry(pieces[0], file, infinitive)] + EntriesFor(pieces[1..], file, infinitive)
  {
    var a := EntriesFor(pieces, file, infinitive);
    var b := [Entry(pieces[0], file, infinitive)] + EntriesFor(pieces[1..], file, infinitive);
    forall k | 0 <= k < |a| ensures a[k] == b[k] {
      if k > 0 { assert b[k] == EntriesFor(pieces[1..], file, infinitive)[k - 1]; }
    }
  }

  lemma ElementsCons(pieces: seq<string>)
    requires |pieces| > 0
    ensures Elements(pieces) == {pieces[0]} + Elements(pieces[1..])
  {
    forall p | p in pieces ensures p == pieces[0] || p in pieces[1..] {
      var k :| 0 <= k < |pieces| && pieces[k] == p;
      if k > 0 { assert pieces[1..][k - 1] == p; }
    }
  }


  /** One raw word of a slot: skipped when the raw string is already in
      `indexed`, otherwise every piece is emitted, flagged as infinitive
      exactly when the form is named "Infinitiu". */
  function StepWord(w: Walk, file: string, o: Occurrence): (r: Walk)
    ensures o.raw in w.indexed ==> r == w
    ensures o.raw !in w.indexed ==>
              r.entries == w.entries + EntriesFor(Pieces(o.raw), file, o.formName == InfinitiveName)
    ensures o.raw !in w.indexed ==> r.indexed == w.indexed + PieceSet(o.raw)
  {
    if o.raw in w.indexed then w
    else EmitPieces(w, file, o.formName == InfinitiveName, Pieces(o.raw))
  }

  /** Processing a run of raw words in order. */
  function WalkFrom(w: Walk, file: string, occs: seq<Occurrence>): Walk
    decreases |occs|
  {
    if |occs| == 0 then w
    else WalkFrom(StepWord(w, file, occs[0]), file, occs[1..])
  }

  /** Entries are only ever appended and words only ever added to
      `indexed`. */
  lemma {:induction false} WalkGrows(w: Walk, file: string, occs: seq<Occurrence>)
    ensures w.entries <= WalkFrom(w, file, occs).entries
    ensures w.indexed <= WalkFrom(w, file, occs).indexed
    decreases |occs|
  {
    if |occs| > 0 {
      WalkGrows(StepWord(w, file, occs[0]), file, occs[1..]);
    }
  }

  /** The walk of a whole file: an empty `indexed` set, then every raw word
      of every form in visiting order. */
  function BuildEntries(file: string, rec: Record): Walk {
    WalkFrom(Walk({}, []), file, Occurrences(rec.forms))
  }

  /** The words of a list of entries. */
  function Words(es: seq<Entry>): set<string> {
    set e | e in es :: e.word
  }

  /** Every piece of every raw word of a run. */
  function AllPieces(occs: seq<Occurrence>): set<string>
    decreases |occs|
  {
    if |occs| == 0 then {} else PieceSet(occs[0].raw) + AllPieces(occs[1..])
  }

  /** No word is emitted twice. */
  predicate DistinctWords(es: seq<Entry>) {
    forall i, j :: 0 <= i < j < |es| ==> es[i].word != es[j].word
  }

  /** The invariant `_process_file` keeps: `indexed` holds exactly the
      emitted words, all of them canonical. */
  predicate Consistent(w: Walk) {
    && w.indexed == Words(w.entries)
    && forall x :: x in w.indexed ==> Canonical(x)
  }

  /** Processing `a + b` is processing `a`, then `b`. */
  lemma {:induction false} WalkAppend(w: Walk, file: string, a: seq<Occurrence>, b: seq<Occurrence>)
    ensures WalkFrom(w, file, a + b) == WalkFrom(WalkFrom(w, file, a), file, b)
    decreases |a|
  {
    if |a| == 0 {
      assert a + b == b;
    } else {
      assert (a + b)[1..] == a[1..] + b;
      WalkAppend(StepWord(w, file, a[0]), file, a[1..], b);
    }
  }

  /** Since `indexed` only holds canonical words, a skipped raw word is its
      own single piece: either way, one step adds exactly the raw word's
      pieces to `indexed`. */
  lemma StepWordIndexed(w: Walk, file: string, o: Occurrence)
    requires forall x :: x in w.indexed ==> Canonical(x)
    ensures StepWord(w, file, o).indexed == w.indexed + PieceSet(o.raw)
    ensures forall x :: x in StepWord(w, file, o).indexed ==> Canonical(x)
  {
    if o.raw in w.indexed {
      CanonicalIsOwnPiece(o.raw);
      assert PieceSet(o.raw) == {o.raw};
    }
  }

  /** After any run of raw words, `indexed` has gained exactly the pieces
      of all of them, skipped or not. */
  lemma {:induction false} WalkIndexed(w: Walk, file: string, occs: seq<Occurrence>)
    requires forall x :: x in w.indexed ==> Canonical(x)
    ensures WalkFrom(w, file, occs).indexed == w.indexed + AllPieces(occs)
    decreases |occs|
  {
    if |occs| > 0 {
      StepWordIndexed(w, file, occs[0]);
      WalkIndexed(StepWord(w, file, occs[0]), file, occs[1..]);
    }
  }

  lemma WordsAppend(a: seq<Entry>, b: seq<Entry>)
    ensures Words(a + b) == Words(a) + Words(b)
  {
    forall x | x in Words(a + b) ensures x in Words(a) + Words(b) {
      var e :| e in a + b && e.word == x;
    }
  }

  lemma WordsOfEntriesFor(pieces: seq<string>, file: string, infinitive: bool)
    ensures Words(EntriesFor(pieces, file, infinitive)) == Elements(pieces)
  {
    var es := EntriesFor(pieces, file, infinitive);
    forall p | p in pieces ensures p in Words(es) {
      var k :| 0 <= k < |pieces| && pieces[k] == p;
      assert es[k].word == p;
    }
  }

  /** Every step keeps `indexed` equal to the set of emitted words. */
  lemma StepWordConsistent(w: Walk, file: string, o: Occurrence)
    requires Consistent(w)
    ensures Consistent(StepWord(w, file, o))
  {
    StepWordIndexed(w, file, o);
    if o.raw !in w.indexed {
      var pieces := Pieces(o.raw);
      var inf := o.formName == InfinitiveName;
      WordsAppend(w.entries, EntriesFor(pieces, file, inf));
      WordsOfEntriesFor(pieces, file, inf);
    }
  }

  lemma {:induction false} WalkConsistent(w: Walk, file: string, occs: seq<Occurrence>)
    requires Consistent(w)
    ensures Consistent(WalkFrom(w, file, occs))
    decreases |occs|
  {
    if |occs| > 0 {
      StepWordConsistent(w, file, occs[0]);
      WalkConsistent(StepWord(w, file, occs[0]), file, occs[1..]);
    }
  }

  /** The set `_process_file` builds for a file is exactly the set of words
      it emitted for that file. */
  lemma IndexedIsEmittedWords(file: string, rec: Record)
    ensures BuildEntries(file, rec).indexed == Words(BuildEntries(file, rec).entries)
  {
    WalkConsistent(Walk({}, []), file, Occurrences(rec.forms));
  }

  /** De-duplication loses no word: the set a file ends with is the set of
      all pieces of all its raw words, and the count returned is its size. */
  lemma IndexedIsAllPieces(file: string, rec: Record)
    ensures BuildEntries(file, rec).indexed == AllPieces(Occurrences(rec.forms))
  {
    WalkIndexed(Walk({}, []), file, Occurrences(rec.forms));
  }

  /** A reference for the emitted entries that needs no running state: the
      raw word at position k is skipped exactly when it is one of the
      pieces of the raw words before it, and otherwise contributes its
      pieces. */
  function ReferenceEntries(file: string, occs: seq<Occurrence>): seq<Entry>
    decreases |occs|
  {
    if |occs| == 0 then []
    else
      var before := occs[..|occs| - 1];
      var o := occs[|occs| - 1];
      ReferenceEntries(file, before)
      + (if o.raw in AllPieces(before) then []
         else EntriesFor(Pieces(o.raw), file, o.formName == InfinitiveName))
  }

  lemma WalkOne(w: Walk, file: string, o: Occurrence)
    ensures WalkFrom(w, file, [o]) == StepWord(w, file, o)
  {
    assert [o][1..] == [];
  }

  /** The running walk and the stateless reference emit the same entries,
      in the same order. */
  lemma {:induction false} EntriesMatchReference(file: string, occs: seq<Occurrence>)
    ensures WalkFrom(Walk({}, []), file, occs).entries == ReferenceEntries(file, occs)
    decreases |occs|
  {
    if |occs| > 0 {
      var before := occs[..|occs| - 1];
      var o := occs[|occs| - 1];
      assert occs == before + [o];
      EntriesMatchReference(file, before);
      WalkAppend(Walk({}, []), file, before, [o]);
      var w := WalkFrom(Walk({}, []), file, before);
      WalkOne(w, file, o);
      WalkIndexed(Walk({}, []), file, before);
    }
  }

  lemma {:induction false} WordsCardinality(es: seq<Entry>)
    ensures |Words(es)| <= |es|
    ensures |Words(es)| == |es| <==> DistinctWords(es)
    decreases |es|
  {
    if |es| == 0 {
      assert Words(es) == {};
    } else {
      var init := es[..|es| - 1];
      WordsCardinality(init);
      if es[|es| - 1].word in Words(init) {
        LastWordRepeated(es);
      } else {
        LastWordNew(es);
      }
    }
  }

  /** A list whose last word already occurs earlier has the same words as
      its other entries, and repeats a word. */
  lemma LastWordRepeated(es: seq<Entry>)
    requires |es| > 0 && es[|es| - 1].word in Words(es[..|es| - 1])
    ensures Words(es) == Words(es[..|es| - 1])
    ensures !DistinctWords(es)
  {
    var init := es[..|es| - 1];
    var e := es[|es| - 1];
    assert es == init + [e];
    WordsAppend(init, [e]);
    assert Words([e]) == {e.word};
    var d :| d in init && d.word == e.word;
    var i :| 0 <= i < |init| && init[i] == d;
    assert es[i].word == es[|es| - 1].word;
  }

  /** A list whose last word is new has one word more than its other
      entries, and repeats a word exactly when they do. */
  lemma LastWordNew(es: seq<Entry>)
    requires |es| > 0 && es[|es| - 1].word !in Words(es[..|es| - 1])
    ensures Words(es) == Words(es[..|es| - 1]) + {es[|es| - 1].word}
    ensures DistinctWords(es) <==> DistinctWords(es[..|es| - 1])
  {
    var init := es[..|es| - 1];
    var e := es[|es| - 1];
    assert es == init + [e];
    WordsAppend(init, [e]);
    assert Words([e]) == {e.word};
    if DistinctWords(init) {
      forall i, j | 0 <= i < j < |es| ensures es[i].word != es[j].word {
        if j == |es| - 1 {
          assert init[i] in init;
        } else {
          assert es[i] == init[i] && es[j] == init[j];
        }
      }
    }
    if DistinctWords(es) {
      forall i, j | 0 <= i < j < |init| ensures init[i].word != init[j].word {
        assert es[i] == init[i] && es[j] == init[j];
      }
    }
  }

  /** The count `_process_file` returns never exceeds the number of entries
      it emitted, and equals it exactly when no word was emitted twice. */
  lemma CountBounds(file: string, rec: Record)
    ensures |BuildEntries(file, rec).indexed| <= |BuildEntries(file, rec).entries|
    ensures |BuildEntries(file, rec).indexed| == |BuildEntries(file, rec).entries|
            <==> DistinctWords(BuildEntries(file, rec).entries)
  {
    IndexedIsEmittedWords(file, rec);
    WordsCardinality(BuildEntries(file, rec).entries);
  }

  /** Every raw word is canonical. */
  predicate AllCanonical(occs: seq<Occurrence>) {
    forall k :: 0 <= k < |occs| ==> Canonical(occs[k].raw)
  }

  lemma StepWordKeepsDistinct(w: Walk, file: string, o: Occurrence)
    requires Consistent(w) && DistinctWords(w.entries) && Canonical(o.raw)
    ensures DistinctWords(StepWord(w, file, o).entries)
  {
    if o.raw !in w.indexed {
      CanonicalIsOwnPiece(o.raw);
      var e := Entry(o.raw, file, o.formName == InfinitiveName);
      var es := StepWord(w, file, o).entries;
      assert es == w.entries + [e];
      forall i, j | 0 <= i < j < |es| ensures es[i].word != es[j].word {
        assert es[i] == w.entries[i];
        if j == |w.entries| {
          assert w.entries[i] in w.entries;
          assert w.entries[i].word in w.indexed;
        } else {
          assert es[j] == w.entries[j];
        }
      }
    }
  }

  lemma {:induction false} WalkKeepsDistinct(w: Walk, file: string, occs: seq<Occurrence>)
    requires Consistent(w) && DistinctWords(w.entries) && AllCanonical(occs)
    ensures DistinctWords(WalkFrom(w, file, occs).entries)
    decreases |occs|
  {
    if |occs| > 0 {
      StepWordKeepsDistinct(w, file, occs[0]);
      StepWordConsistent(w, file, occs[0]);
      WalkKeepsDistinct(StepWord(w, file, occs[0]), file, occs[1..]);
    }
  }

  /** When every raw word of a file is a clean single word, de-duplication
      is exact: no word is emitted twice, and the count returned equals the
      number of entries written. */
  lemma CleanRecordHasNoRepeats(file: string, rec: Record)
    requires AllCanonical(Occurrences(rec.forms))
    ensures DistinctWords(BuildEntries(file, rec).entries)
    ensures |BuildEntries(file, rec).indexed| == |BuildEntries(file, rec).entries|
  {
    WalkKeepsDistinct(Walk({}, []), file, Occurrences(rec.forms));
    CountBounds(file, rec);
  }

  /** A raw word holding the separator is never skipped, however many of
      its pieces were emitted before: all its pieces are emitted again. */
  lemma SeparatedWordNeverSkipped(w: Walk, file: string, o: Occurrence)
    requires forall x :: x in w.indexed ==> Canonical(x)
    requires Separator in o.raw
    ensures StepWord(w, file, o).entries
            == w.entries + EntriesFor(Pieces(o.raw), file, o.formName == InfinitiveName)
    ensures |StepWord(w, file, o).entries| >= |w.entries| + 2
  {
    assert !Canonical(o.raw);
    SeparatorGivesSeveralPieces(o.raw);
  }

  /** Two canonical words joined by the separator split back into those
      two words. */
  lemma PiecesOfTwo(p: string, q: string)
    requires Canonical(p) && Canonical(q)
    ensures Pieces(p + [Separator] + q) == [p, q]
  {
    SplitAtSeparator(p, q, Separator);
    SplitNoSeparator(q, Separator);
    assert Split(p + [Separator] + q, Separator) == [p, q];
  }

  /** The skip test compares the raw word, not its pieces: a form whose
      first slot lists "p/q" and then "p/r" emits `p` twice, so the file
      writes four entries but its `indexed` set has at most three words. */
  lemma SharedPieceEmittedTwice(file: string, lemmaName: string, formName: string,
                                p: string, q: string, r: string)
    requires Canonical(p) && Canonical(q) && Canonical(r)
    ensures var rec := Record(lemmaName, [Form(formName, [p + [Separator] + q, p + [Separator] + r],
                                               [], [], [], [], [])]);
      var w := BuildEntries(file, rec);
      var inf := formName == InfinitiveName;
      && w.entries == [Entry(p, file, inf), Entry(q, file, inf), Entry(p, file, inf), Entry(r, file, inf)]
      && |w.indexed| <= 3
      && !DistinctWords(w.entries)
  {
    var pq := p + [Separator] + q;
    var pr := p + [Separator] + r;
    var f := Form(formName, [pq, pr], [], [], [], [], []);
    var o1 := Occurrence(pq, formName);
    var o2 := Occurrence(pr, formName);
    var inf := formName == InfinitiveName;
    OneSlotOccurrences(lemmaName, f, o1, o2);
    var w0 := Walk({}, []);
    var w1 := StepWord(w0, file, o1);
    var w2 := StepWord(w1, file, o2);
    TwoPieceSteps(file, p, q, r, formName);
    WalkAppend(w0, file, [o1], [o2]);
    WalkOne(w0, file, o1);
    WalkOne(w1, file, o2);
    assert [o1] + [o2] == [o1, o2];
    assert w2.entries[0].word == w2.entries[2].word;
  }

  /** The words of a form whose only non-empty slot is its first, holding
      two words. */
  lemma OneSlotOccurrences(lemmaName: string, f: Form, o1: Occurrence, o2: Occurrence)
    requires f.singular1 == [o1.raw, o2.raw] && o1.formName == f.name && o2.formName == f.name
    requires f.singular2 == f.singular3 == f.plural1 == f.plural2 == f.plural3 == []
    ensures Occurrences(Record(lemmaName, [f]).forms) == [o1, o2]
  {
    SlotOrder(f);
    assert FormOccurrences(f) == [o1, o2];
    assert [f][1..] == [];
  }

  /** The two steps of the walk over "p/q" and "p/r". */
  lemma TwoPieceSteps(file: string, p: string, q: string, r: string, formName: string)
    requires Canonical(p) && Canonical(q) && Canonical(r)
    ensures var inf := formName == InfinitiveName;
      var w1 := StepWord(Walk({}, []), file, Occurrence(p + [Separator] + q, formName));
      var w2 := StepWord(w1, file, Occurrence(p + [Separator] + r, formName));
      && w1.entries == [Entry(p, file, inf), Entry(q, file, inf)]
      && w2.entries == [Entry(p, file, inf), Entry(q, file, inf), Entry(p, file, inf), Entry(r, file, inf)]
      && w2.indexed == {p, q, r}
  {
    var w1 := StepWord(Walk({}, []), file, Occurrence(p + [Separator] + q, formName));
    FreshPairStep(Walk({}, []), file, p, q, formName);
    FreshPairStep(w1, file, p, r, formName);
  }

  /** A raw word "p/q" that is not itself in `indexed` emits `p` and `q`. */
  lemma FreshPairStep(w: Walk, file: string, p: string, q: string, formName: string)
    requires Canonical(p) && Canonical(q)
    requires forall x :: x in w.indexed ==> Canonical(x)
    ensures var inf := formName == InfinitiveName;
      var w1 := StepWord(w, file, Occurrence(p + [Separator] + q, formName));
      && w1.entries == w.entries + [Entry(p, file, inf), Entry(q, file, inf)]
      && w1.indexed == w.indexed + {p, q}
  {
    var pq := p + [Separator] + q;
    PiecesOfTwo(p, q);
    assert pq[|p|] == Separator;
    assert pq !in w.indexed;
    assert Elements([p, q]) == {p, q};
  }

  /** Where every new entry comes from: one of the pieces of some raw word
      of the run, carrying the file name and the infinitive flag of that
      raw word's form. */
  lemma {:induction false} EntryProvenance(w: Walk, file: string, occs: seq<Occurrence>)
    ensures var r := WalkFrom(w, file, occs);
      forall k :: |w.entries| <= k < |r.entries| ==>
        exists o :: o in occs && r.entries[k].word in PieceSet(o.raw)
          && r.entries[k].file == file
          && r.entries[k].isInfinitive == (o.formName == InfinitiveName)
    decreases |occs|
  {
    if |occs| > 0 {
      var o := occs[0];
      var w1 := StepWord(w, file, o);
      var r := WalkFrom(w, file, occs);
      EntryProvenance(w1, file, occs[1..]);
      assert r == WalkFrom(w1, file, occs[1..]);
      WalkGrows(w1, file, occs[1..]);
      forall k | |w.entries| <= k < |r.entries|
        ensures exists o' :: (o' in occs && r.entries[k].word in PieceSet(o'.raw)
          && r.entries[k].file == file
          && r.entries[k].isInfinitive == (o'.formName == InfinitiveName))
      {
        if k < |w1.entries| {
          assert o.raw !in w.indexed;
          var pieces := Pieces(o.raw);
          assert r.entries[k] == w1.entries[k];
          assert w1.entries[k] == Entry(pieces[k - |w.entries|], file, o.formName == InfinitiveName);
          assert pieces[k - |w.entries|] in pieces;
        } else {
          var o' :| o' in occs[1..] && r.entries[k].word in PieceSet(o'.raw)
            && r.entries[k].file == file
            && r.entries[k].isInfinitive == (o'.formName == InfinitiveName);
          assert o' in occs;
        }
      }
    }
  }
}
