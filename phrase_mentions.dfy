/**
 * Phrase-level mentions of the feedback survey: for each comment, the pairs
 * of grammar chunks whose labels form one of six allowed combinations are
 * recorded as mentions, each with its key, its phrase, its theme and its two
 * arguments.
 *
 * The chunk parser and the pair-wise combination step are not part of this
 * model: each comment is given as the sequence of chunk pairs they produce.
 * The two theme regular-expression helpers are taken as parameters.
 */
module PhraseMentions {
  import opened PyStrings

  /** A chunk found by the grammar: its label (`verb`, `noun`, ...), here `kind`, and its text. */
  datatype Chunk = Chunk(kind: string, text: string)

  /** One pair-wise combination of two chunks of a comment. */
  type Combination = (Chunk, Chunk)

  /** The pair of labels of a combination. */
  type Key = (string, string)

  /** The label pairs that are recorded as mentions. */
  const AllowedKeys: seq<Key> := [
    ("verb", "noun"), ("verb", "prep_noun"), ("verb", "noun_verb"),
    ("noun", "prep_noun"), ("prep_noun", "noun"), ("prep_noun", "prep_noun")
  ]

  /** A recorded mention: `(key, phrase, mention_theme, (arg1, arg2))`. */
  datatype Mention = Mention(key: Key, phrase: string, theme: string, args: (string, string))

  function KeyOf(combo: Combination): Key {
    (combo.0.kind, combo.1.kind)
  }

  predicate IsRecorded(combo: Combination) {
    KeyOf(combo) in AllowedKeys
  }

  /**
   * The mention recorded for an allowed combination. The theme is computed from
   * the lower-cased texts before `( ) [ ] +` are deleted from them.
   */
  function MentionOf(combo: Combination, groupVerbs: string -> string, themeOf: string -> string): (m: Mention)
    ensures m.key == KeyOf(combo)
    ensures NoBrackets(m.args.0) && NoBrackets(m.args.1) && NoBrackets(m.phrase)
    ensures m.phrase == m.args.0 + " " + m.args.1
    ensures |m.args.0| <= |combo.0.text| && |m.args.1| <= |combo.1.text|
  {
    var arg1 := Lower(combo.0.text);
    var arg2 := Lower(combo.1.text);
    var stripped1 := RemoveBrackets(arg1);
    var stripped2 := RemoveBrackets(arg2);
    RemoveBracketsAppend(stripped1 + " ", stripped2);
    RemoveBracketsAppend(stripped1, " ");
    RemoveBracketsNoop(stripped1);
    RemoveBracketsNoop(stripped2);
    RemoveBracketsNoop(" ");
    Mention(KeyOf(combo), stripped1 + " " + stripped2,
            groupVerbs(arg1) + " - " + themeOf(arg2), (stripped1, stripped2))
  }

  /**
   * The mentions one comment contributes, built one combination at a time;
   * each has an allowed key.
   */
  function CommentMentions(combos: seq<Combination>, groupVerbs: string -> string, themeOf: string -> string): (r: seq<Mention>)
    ensures forall k :: 0 <= k < |r| ==> r[k].key in AllowedKeys
    decreases |combos|
  {
    if combos == [] then []
    else
      var before := CommentMentions(combos[..|combos| - 1], groupVerbs, themeOf);
      var last := combos[|combos| - 1];
      if IsRecorded(last) then before + [MentionOf(last, groupVerbs, themeOf)] else before
  }

  /** The positions of the allowed combinations, in ascending order. */
  function RecordedPositions(combos: seq<Combination>): seq<nat>
    decreases |combos|
  {
    if combos == [] then []
    else
      var before := RecordedPositions(combos[..|combos| - 1]);
      if IsRecorded(combos[|combos| - 1]) then before + [|combos| - 1] else before
  }

  /**
   * The recorded positions are strictly increasing and are exactly the
   * positions of the combinations whose key is allowed.
   */
  lemma {:induction false} RecordedPositionsExact(combos: seq<Combination>)
    ensures forall k :: 0 <= k < |RecordedPositions(combos)| ==> RecordedPositions(combos)[k] < |combos|
    ensures forall k, l :: 0 <= k < l < |RecordedPositions(combos)| ==>
      RecordedPositions(combos)[k] < RecordedPositions(combos)[l]
    ensures forall i :: 0 <= i < |combos| ==> (IsRecorded(combos[i]) <==> i in RecordedPositions(combos))
    decreases |combos|
  {
    if combos != [] {
      var init := combos[..|combos| - 1];
      RecordedPositionsExact(init);
      assert forall i :: 0 <= i < |init| ==> init[i] == combos[i];
    }
  }

  /**
   * The k-th mention of a comment is the mention of its k-th allowed
   * combination: nothing else is recorded, nothing allowed is skipped, and
   * the input order is kept.
   */
  lemma {:induction false} MentionsFollowRecorded(combos: seq<Combination>, groupVerbs: string -> string, themeOf: string -> string)
    ensures |CommentMentions(combos, groupVerbs, themeOf)| == |RecordedPositions(combos)|
    ensures forall k :: 0 <= k < |RecordedPositions(combos)| ==>
      RecordedPositions(combos)[k] < |combos| &&
      CommentMentions(combos, groupVerbs, themeOf)[k] == MentionOf(combos[RecordedPositions(combos)[k]], groupVerbs, themeOf)
    decreases |combos|
  {
    if combos != [] {
      var init := combos[..|combos| - 1];
      MentionsFollowRecorded(init, groupVerbs, themeOf);
      var before := CommentMentions(init, groupVerbs, themeOf);
      var positions := RecordedPositions(init);
      var all := CommentMentions(combos, groupVerbs, themeOf);
      var allPositions := RecordedPositions(combos);
      forall k | 0 <= k < |allPositions|
        ensures allPositions[k] < |combos| && all[k] == MentionOf(combos[allPositions[k]], groupVerbs, themeOf)
      {
        if k < |positions| {
          assert allPositions[k] == positions[k] && all[k] == before[k];
          assert init[positions[k]] == combos[positions[k]];
        }
      }
    }
  }

  /**
   * A mention's arguments are the chunk texts with `( ) [ ] +` deleted, then
   * lower-cased (the two orders agree), and its theme is built from the
   * lower-cased texts before the deletion.
   */
  lemma MentionShape(combo: Combination, groupVerbs: string -> string, themeOf: string -> string)
    ensures var m := MentionOf(combo, groupVerbs, themeOf);
      && m.args.0 == Lower(RemoveBrackets(combo.0.text))
      && m.args.1 == Lower(RemoveBrackets(combo.1.text))
      && m.theme == groupVerbs(Lower(combo.0.text)) + " - " + themeOf(Lower(combo.1.text))
  {
    LowerRemoveBracketsCommute(combo.0.text);
    LowerRemoveBracketsCommute(combo.1.text);
  }

  /** Scanning one more combination appends its mention when its key is allowed. */
  lemma CommentMentionsStep(combos: seq<Combination>, j: nat, groupVerbs: string -> string, themeOf: string -> string)
    requires j < |combos|
    ensures CommentMentions(combos[..j + 1], groupVerbs, themeOf) ==
      if IsRecorded(combos[j]) then CommentMentions(combos[..j], groupVerbs, themeOf) + [MentionOf(combos[j], groupVerbs, themeOf)]
      else CommentMentions(combos[..j], groupVerbs, themeOf)
  {
    assert combos[..j + 1][..j] == combos[..j];
  }

  /**
   * The mentions of a comment split at any point are the mentions of the first
   * part followed by those of the second: each combination contributes on its
   * own, whatever comes before it.
   */
  lemma {:induction false} CommentMentionsAppend(a: seq<Combination>, b: seq<Combination>, groupVerbs: string -> string, themeOf: string -> string)
    ensures CommentMentions(a + b, groupVerbs, themeOf) ==
      CommentMentions(a, groupVerbs, themeOf) + CommentMentions(b, groupVerbs, themeOf)
    decreases |b|
  {
    if b == [] {
      assert a + b == a;
    } else {
      var init := b[..|b| - 1];
      var ab := a + b;
      assert ab[..|ab| - 1] == a + init;
      assert ab[|ab| - 1] == b[|b| - 1];
      CommentMentionsAppend(a, init, groupVerbs, themeOf);
    }
  }

  /**
   * `extract_phrase_mentions`: one list of mentions per comment, in comment
   * order, each appended to in place as the combinations are scanned.
   */
  method ExtractPhraseMentions(comments: seq<seq<Combination>>, groupVerbs: string -> string, themeOf: string -> string)
    returns (phraseMentions: seq<seq<Mention>>)
    ensures |phraseMentions| == |comments|
    ensures forall i :: 0 <= i < |comments| ==> phraseMentions[i] == CommentMentions(comments[i], groupVerbs, themeOf)
  {
    phraseMentions := [];
    var i := 0;
    while i < |comments|
      invariant 0 <= i <= |comments|
      invariant |phraseMentions| == i
      invariant forall k :: 0 <= k < i ==> phraseMentions[k] == CommentMentions(comments[k], groupVerbs, themeOf)
    {
      var combos := comments[i];
      phraseMentions := phraseMentions + [[]];
      var j := 0;
      while j < |combos|
        invariant 0 <= j <= |combos|
        invariant |phraseMentions| == i + 1
        invariant forall k :: 0 <= k < i ==> phraseMentions[k] == CommentMentions(comments[k], groupVerbs, themeOf)
        invariant phraseMentions[i] == CommentMentions(combos[..j], groupVerbs, themeOf)
      {
        var combo := combos[j];
        CommentMentionsStep(combos, j, groupVerbs, themeOf);
        var key := (combo.0.kind, combo.1.kind);
        var arg1 := Lower(combo.0.text);
        var arg2 := Lower(combo.1.text);
        if key in AllowedKeys {
          var mentionTheme := groupVerbs(arg1) + " - " + themeOf(arg2);
          arg1 := RemoveBrackets(arg1);
          arg2 := RemoveBrackets(arg2);
          var phrase := arg1 + " " + arg2;
          var last := |phraseMentions| - 1;
          phraseMentions := phraseMentions[last := phraseMentions[last] + [Mention(key, phrase, mentionTheme, (arg1, arg2))]];
        }
        j := j + 1;
      }
      assert combos[..|combos|] == combos;
      i := i + 1;
    }
  }
}
