/** One parsed conjugation file: a lemma and its forms, each form with six
    person/number slots of raw words. `Occurrences` lists the raw words in
    the order `_process_file` visits them. */
module Paradigm {

  /** One grammatical form (its `form` name) and its six slots, each the
      list of raw `word` strings of that slot. */
  datatype Form = Form(
    name: string,
    singular1: seq<string>, singular2: seq<string>, singular3: seq<string>,
    plural1: seq<string>, plural2: seq<string>, plural3: seq<string>)

  /** A file's content: its single top-level key (the lemma) and its forms
      in file order. */
  datatype Record = Record(lemmaName: string, forms: seq<Form>)

  /** The form name whose entries are infinitives. */
  const InfinitiveName := "Infinitiu"

  /** The slots of a form in the fixed visiting order
      singular1, singular2, singular3, plural1, plural2, plural3. */
  function Slots(f: Form): (r: seq<seq<string>>)
    ensures |r| == 6
  {
    [f.singular1, f.singular2, f.singular3, f.plural1, f.plural2, f.plural3]
  }

  /** One raw word together with the name of the form it was listed under. */
  datatype Occurrence = Occurrence(raw: string, formName: string)

  /** The words of one slot, in list order. */
  function WordOccurrences(words: seq<string>, formName: string): (r: seq<Occurrence>)
    ensures |r| == |words|
    ensures forall k :: 0 <= k < |words| ==> r[k] == Occurrence(words[k], formName)
  {
    seq(|words|, k requires 0 <= k < |words| => Occurrence(words[k], formName))
  }

  /** The words of several slots of one form, slot after slot. */
  function SlotOccurrences(slots: seq<seq<string>>, formName: string): seq<Occurrence>
    decreases |slots|
  {
    if |slots| == 0 then []
    else WordOccurrences(slots[0], formName) + SlotOccurrences(slots[1..], formName)
  }

  /** The words of one form. */
  function FormOccurrences(f: Form): seq<Occurrence> {
    SlotOccurrences(Slots(f), f.name)
  }

  /** The words of a sequence of forms, form after form. */
  function Occurrences(forms: seq<Form>): seq<Occurrence>
    decreases |forms|
  {
    if |forms| == 0 then []
    else FormOccurrences(forms[0]) + Occurrences(forms[1..])
  }

  /** Within a form, the slots come in the fixed order, each slot's words
      in list order, every word tagged with the form's name. */
  lemma SlotOrder(f: Form)
    ensures FormOccurrences(f) ==
              WordOccurrences(f.singular1, f.name) + WordOccurrences(f.singular2, f.name)
              + WordOccurrences(f.singular3, f.name) + WordOccurrences(f.plural1, f.name)
              + WordOccurrences(f.plural2, f.name) + WordOccurrences(f.plural3, f.name)
  {
    var s := Slots(f);
    var n := f.name;
    assert s == s[0..];
    SlotOccurrencesFrom(s, 0, n);
    SlotOccurrencesFrom(s, 1, n);
    SlotOccurrencesFrom(s, 2, n);
    SlotOccurrencesFrom(s, 3, n);
    SlotOccurrencesFrom(s, 4, n);
    SlotOccurrencesFrom(s, 5, n);
    assert s[6..] == [];
  }

  /** Forms are visited in file order: the words of `a + b` are the words
      of `a` followed by the words of `b`. */
  lemma {:induction false} OccurrencesAppend(a: seq<Form>, b: seq<Form>)
    ensures Occurrences(a + b) == Occurrences(a) + Occurrences(b)
    decreases |a|
  {
    if |a| == 0 {
      assert a + b == b;
    } else {
      OccurrencesAppend(a[1..], b);
      assert (a + b)[1..] == a[1..] + b;
    }
  }

  /** Peeling the first form off a suffix of the form list. */
  lemma OccurrencesFrom(forms: seq<Form>, i: nat)
    requires i < |forms|
    ensures Occurrences(forms[i..]) == FormOccurrences(forms[i]) + Occurrences(forms[i + 1..])
  {
    assert forms[i..][1..] == forms[i + 1..];
  }

  /** Peeling the first slot off a suffix of the slot list. */
  lemma SlotOccurrencesFrom(slots: seq<seq<string>>, j: nat, formName: string)
    requires j < |slots|
    ensures SlotOccurrences(slots[j..], formName)
              == WordOccurrences(slots[j], formName) + SlotOccurrences(slots[j + 1..], formName)
  {
    assert slots[j..][1..] == slots[j + 1..];
  }

  /** Peeling the first word off a suffix of a slot. */
  lemma WordOccurrencesFrom(words: seq<string>, k: nat, formName: string)
    requires k < |words|
    ensures WordOccurrences(words[k..], formName)
              == [Occurrence(words[k], formName)] + WordOccurrences(words[k + 1..], formName)
  {
  }
}
