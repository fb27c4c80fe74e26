/**
 * The flattening helpers of the feedback-tool pipeline: the `lemmas` and
 * `words` columns built from part-of-speech tagged sentences, and the phrase
 * list and phrase column built from the per-mention dictionaries.
 */
module Flattening {
  import opened Wrappers
  import opened PyStrings

  // ---------------------------------------------------------------------
  // Nested comprehensions `[f(token) for sent in x for token in sent]`
  // ---------------------------------------------------------------------

  /** The number of items across all inner sequences. */
  function ItemCount<T>(ss: seq<seq<T>>): nat {
    if ss == [] then 0 else |ss[0]| + ItemCount(ss[1..])
  }

  function MapSeq<T, U>(s: seq<T>, f: T -> U): (r: seq<U>)
    ensures |r| == |s|
    ensures forall j :: 0 <= j < |s| ==> r[j] == f(s[j])
  {
    seq(|s|, j requires 0 <= j < |s| => f(s[j]))
  }

  /** `f` applied to every item, outer sequence first, then inner. */
  function FlatMap<T, U>(ss: seq<seq<T>>, f: T -> U): (r: seq<U>)
    ensures |r| == ItemCount(ss)
  {
    if ss == [] then [] else MapSeq(ss[0], f) + FlatMap(ss[1..], f)
  }

  /**
   * Item `j` of inner sequence `i` lands at position `ItemCount(ss[..i]) + j`
   * of the flattened result: the outer-then-inner order is kept.
   */
  lemma {:induction false} FlatMapAt<T, U>(ss: seq<seq<T>>, f: T -> U, i: nat, j: nat)
    requires i < |ss| && j < |ss[i]|
    ensures ItemCount(ss[..i]) + j < |FlatMap(ss, f)|
    ensures FlatMap(ss, f)[ItemCount(ss[..i]) + j] == f(ss[i][j])
    decreases i
  {
    if i == 0 {
      assert ss[..0] == [];
    } else {
      FlatMapAt(ss[1..], f, i - 1, j);
      assert ss[..i][0] == ss[0];
      assert ss[..i][1..] == ss[1..][..i - 1];
    }
  }

  // ---------------------------------------------------------------------
  // The `lemmas` and `words` columns
  // ---------------------------------------------------------------------

  /** A part-of-speech tagged token: component 0 is the word, component 2 the lemma (`baseForm`). */
  datatype Token = Token(word: string, tag: string, baseForm: string)

  type Sentence = seq<Token>

  /** `[token[2] for sent in x for token in sent]`: one lemma per token. */
  function Lemmas(sents: seq<Sentence>): (r: seq<string>)
    ensures |r| == ItemCount(sents)
  {
    FlatMap(sents, (t: Token) => t.baseForm)
  }

  /** `[token[0] for sent in x for token in sent]`: one word per token. */
  function Words(sents: seq<Sentence>): (r: seq<string>)
    ensures |r| == ItemCount(sents)
  {
    FlatMap(sents, (t: Token) => t.word)
  }

  /**
   * The lemma and word lists have one entry per token, sentence by sentence and
   * token by token: token `j` of sentence `i` gives entry `ItemCount(sents[..i]) + j`.
   */
  lemma LemmasAndWordsAt(sents: seq<Sentence>, i: nat, j: nat)
    requires i < |sents| && j < |sents[i]|
    ensures ItemCount(sents[..i]) + j < ItemCount(sents)
    ensures Lemmas(sents)[ItemCount(sents[..i]) + j] == sents[i][j].baseForm
    ensures Words(sents)[ItemCount(sents[..i]) + j] == sents[i][j].word
  {
    FlatMapAt(sents, (t: Token) => t.baseForm, i, j);
    FlatMapAt(sents, (t: Token) => t.word, i, j);
  }

  // ---------------------------------------------------------------------
  // The phrase list and phrase column
  // ---------------------------------------------------------------------

  /** The values of one `find_needle` dictionary, in insertion order; `None` for `None`. */
  type DictValues = seq<Option<string>>

  /** A cell of the `<phrase_type>_dict` column: a list of dictionaries, or NaN. */
  datatype DictCell = Missing | Dicts(dicts: seq<DictValues>)

  /** The values that are not `None`, in order: one fewer for each `None`. */
  function PresentValues(vals: DictValues): (r: seq<string>)
    ensures |r| == |vals| - NoneCount(vals)
  {
    if vals == [] then []
    else match vals[0]
      case None => PresentValues(vals[1..])
      case Some(v) => [v] + PresentValues(vals[1..])
  }

  function NoneCount(vals: DictValues): nat {
    if vals == [] then 0 else (if vals[0].None? then 1 else 0) + NoneCount(vals[1..])
  }

  /** A value is kept exactly when it occurs as a non-`None` value. */
  lemma {:induction false} PresentValuesExact(vals: DictValues)
    ensures forall v :: v in PresentValues(vals) <==> Some(v) in vals
  {
    if vals != [] {
      PresentValuesExact(vals[1..]);
      assert vals == [vals[0]] + vals[1..];
    }
  }

  lemma {:induction false} PresentValuesAppend(a: DictValues, b: DictValues)
    ensures PresentValues(a + b) == PresentValues(a) + PresentValues(b)
  {
    if a == [] {
      assert a + b == b;
    } else {
      assert (a + b)[0] == a[0];
      assert (a + b)[1..] == a[1..] + b;
      PresentValuesAppend(a[1..], b);
    }
  }

  /** All dictionaries' values, one dictionary after the other. */
  function Concat<T>(ss: seq<seq<T>>): seq<T> {
    if ss == [] then [] else ss[0] + Concat(ss[1..])
  }

  /**
   * `[value for d in x for value in d.values() if value is not None] if not isinstance(x, float) else []`.
   * The phrase list holds exactly the non-`None` values of all dictionaries of
   * the cell, in order, and is empty for a missing cell.
   */
  function PhraseList(cell: DictCell): (r: seq<string>)
    ensures cell.Missing? ==> r == []
    ensures cell.Dicts? ==> r == PresentValues(Concat(cell.dicts))
  {
    match cell
    case Missing => []
    case Dicts(ds) => PresentPerDictConcat(ds); PresentPerDict(ds)
  }

  /** The present values of each dictionary in turn; at most one per value. */
  function PresentPerDict(ds: seq<DictValues>): (r: seq<string>)
    ensures |r| <= ItemCount(ds)
  {
    if ds == [] then [] else PresentValues(ds[0]) + PresentPerDict(ds[1..])
  }

  lemma {:induction false} PresentPerDictConcat(ds: seq<DictValues>)
    ensures PresentPerDict(ds) == PresentValues(Concat(ds))
  {
    if ds != [] {
      PresentPerDictConcat(ds[1..]);
      PresentValuesAppend(ds[0], Concat(ds[1..]));
    }
  }

  /**
   * The phrase column: the phrase list joined with `", "`. It is empty when the
   * list is, and otherwise holds every phrase plus two characters between each two.
   */
  function PhraseColumn(cell: DictCell): (r: string)
    ensures PhraseList(cell) == [] ==> r == ""
    ensures PhraseList(cell) != [] ==> |r| == TotalLength(PhraseList(cell)) + 2 * (|PhraseList(cell)| - 1)
  {
    var phrases := PhraseList(cell);
    if phrases == [] then Join(", ", phrases)
    else JoinLength(", ", phrases); Join(", ", phrases)
  }

  /**
   * When the phrase list is non-empty and no phrase contains `", "`,
   * splitting the column on `", "` gives the phrase list back.
   */
  lemma PhraseColumnSplits(cell: DictCell)
    requires PhraseList(cell) != []
    requires forall k :: 0 <= k < |PhraseList(cell)| ==> NoCommaSpace(PhraseList(cell)[k])
    ensures SplitOn(PhraseColumn(cell), ", ") == PhraseList(cell)
  {
    SplitOnJoin(PhraseList(cell));
  }

  /** A cell with no dictionaries, or one that is missing, gives the empty column. */
  lemma {:induction false} PhraseColumnEmpty(cell: DictCell)
    requires cell.Missing? || forall k :: 0 <= k < |cell.dicts| ==> forall j :: 0 <= j < |cell.dicts[k]| ==> cell.dicts[k][j].None?
    ensures PhraseColumn(cell) == ""
  {
    if cell.Dicts? {
      AllNoneConcat(cell.dicts);
      NothingPresent(Concat(cell.dicts));
    }
  }

  lemma {:induction false} NothingPresent(vals: DictValues)
    requires forall j :: 0 <= j < |vals| ==> vals[j].None?
    ensures PresentValues(vals) == []
  {
    if vals != [] {
      NothingPresent(vals[1..]);
    }
  }

  lemma {:induction false} AllNoneConcat(ds: seq<DictValues>)
    requires forall k :: 0 <= k < |ds| ==> forall j :: 0 <= j < |ds[k]| ==> ds[k][j].None?
    ensures forall j :: 0 <= j < |Concat(ds)| ==> Concat(ds)[j].None?
  {
    if ds != [] {
      AllNoneConcat(ds[1..]);
      var c := Concat(ds);
      assert c == ds[0] + Concat(ds[1..]);
      forall j | 0 <= j < |c| ensures c[j].None? {
        if j >= |ds[0]| {
          assert c[j] == Concat(ds[1..])[j - |ds[0]|];
        }
      }
    }
  }
}
