# Feedback-tool data preparation: a verified model

This project models the self-contained list and string transforms of
`src/make_feedback_tool_data/make_data_for_feedback_tool.py`, the script
that turns GOV.UK user-intent survey responses into the data set of the
survey feedback explorer:

- **Comment cleaning** (`create_phrase_level_columns`): a missing comment
  becomes `""`, the characters `( ) [ ] +` are deleted, and the words are
  re-joined with single spaces (`CommentText`).
- **Phrase mentions** (`extract_phrase_mentions`): for every comment, the
  chunk pairs whose label pair is one of six allowed pairs become mentions
  `(key, phrase, theme, (arg1, arg2))`, appended in place to the comment's
  list (`PhraseMentions`, an imperative method with nested loops).
- **Flattening** (`save_intermediate_df`, `create_phrase_level_data`): the
  `lemmas` and `words` lists taken from tagged sentences, and the phrase list
  and `", "`-joined phrase column taken from the per-mention dictionaries
  (`Flattening`).
- **Row filter** (`preproccess_filter_comment_text`): a row survives when its
  PII-removed comment is shorter than `length_threshold` (default 4000) and
  its detected language is one of `en`, `un`, `-`, `sco` (`RowFilter`).

`PyStrings` models the Python primitives these use: deleting the regular
expression class `[()\[\]+]`, `str.lower`, `str.split()` (on exactly the
characters `str.isspace()` accepts) and `sep.join`. The code never calls
`str.split(sep)`; `PyStrings.SplitOn` models it only to state that the
`", "`-joined phrase column can be split back into its phrases.
`Wrappers` holds the `Option` type used for missing cells and `None` values.

The hidden helpers are inputs or parameters. The chunk parser and the
pair-wise combination step give each comment's sequence of chunk pairs. The
two theme regular-expression functions, the language detector and the
per-mention dictionary search are parameters or given values. Their
behaviour is not specified.

The row filter tests the length of the PII-removed comment
(`Q3_pii_removed`), not of the cleaned comment `Q3_x_edit`. The model follows
the code. The session-tagging and ratio analysis of the repository's
notebooks is not in this file and is not part of this model.

## Model

| member | source | states |
|---|---|---|
| PyStrings.RemoveBrackets | src/make_feedback_tool_data/make_data_for_feedback_tool.py:119 | the result contains none of `( ) [ ] +`, and its length is the input's length minus the number of those characters in the input |
| PyStrings.RemoveBracketsChar | src/make_feedback_tool_data/make_data_for_feedback_tool.py:119 | a single character of `( ) [ ] +` is deleted, and any other character is kept |
| PyStrings.RemoveBracketsAppend | src/make_feedback_tool_data/make_data_for_feedback_tool.py:119 | deleting the class from `a + b` gives the deletion from `a` followed by the deletion from `b`; with `RemoveBracketsChar` this fixes the result on every text |
| PyStrings.RemoveBracketsNoop | src/make_feedback_tool_data/make_data_for_feedback_tool.py:83-84 | deleting the class from text without any of its characters leaves it unchanged |
| PyStrings.LowerChar | src/make_feedback_tool_data/make_data_for_feedback_tool.py:75-76 | a capital becomes the lower-case letter whose capital it is, and every other character is kept; the result is never a capital |
| PyStrings.Lower | src/make_feedback_tool_data/make_data_for_feedback_tool.py:75-76 | lower-casing keeps the length and maps each character on its own |
| PyStrings.LowerRemoveBracketsCommute | src/make_feedback_tool_data/make_data_for_feedback_tool.py:75-84 | lower-casing then deleting `( ) [ ] +` equals deleting then lower-casing |
| PyStrings.Split | src/make_feedback_tool_data/make_data_for_feedback_tool.py:119 | every piece `str.split()` returns is non-empty and free of whitespace |
| PyStrings.SplitOfWord | src/make_feedback_tool_data/make_data_for_feedback_tool.py:119 | a text that is one word splits into just that word |
| PyStrings.SplitAtSpace | src/make_feedback_tool_data/make_data_for_feedback_tool.py:119 | any whitespace character splits the text in two: the words of `a + [c] + b` are the words of `a` followed by the words of `b` |
| PyStrings.SplitNoBrackets | src/make_feedback_tool_data/make_data_for_feedback_tool.py:119 | the words of bracket-free text are bracket-free |
| PyStrings.Join | src/make_feedback_tool_data/make_data_for_feedback_tool.py:119 | joining no parts gives `""`, and joining one part gives that part |
| PyStrings.SplitJoin | src/make_feedback_tool_data/make_data_for_feedback_tool.py:119 | splitting `" ".join(words)` gives the words back (split is the inverse of join on word lists) |
| PyStrings.JoinSingleSpaced | src/make_feedback_tool_data/make_data_for_feedback_tool.py:119 | `" ".join(words)` has no whitespace but single spaces, none at either end and no two in a row |
| PyStrings.SingleSpacedJoinSplit | src/make_feedback_tool_data/make_data_for_feedback_tool.py:119 | re-joining the words of single-spaced text with `" "` gives the text back |
| PyStrings.JoinLength | src/make_feedback_tool_data/make_data_for_feedback_tool.py:108 | a join's length is the parts' total length plus one separator between each two parts |
| PyStrings.SplitOnJoin | src/make_feedback_tool_data/make_data_for_feedback_tool.py:108 | splitting `", ".join(parts)` on `", "` gives the parts back when no part contains `", "` |
| CommentText.CleanComment | src/make_feedback_tool_data/make_data_for_feedback_tool.py:118-119 | a cleaned comment has none of `( ) [ ] +`, is single-spaced, and is `""` for a missing comment |
| CommentText.CleanWords | src/make_feedback_tool_data/make_data_for_feedback_tool.py:119 | the words of a cleaned comment are exactly the words of the stripped comment, in order |
| CommentText.CleanFixpoint | src/make_feedback_tool_data/make_data_for_feedback_tool.py:119 | cleaning leaves a text unchanged if and only if it is bracket-free and single-spaced |
| CommentText.CleanIdempotent | src/make_feedback_tool_data/make_data_for_feedback_tool.py:119 | cleaning a cleaned comment changes nothing |
| PhraseMentions.MentionOf | src/make_feedback_tool_data/make_data_for_feedback_tool.py:74-86 | a mention keeps its combination's label pair as key; its args are no longer than the chunk texts and bracket-free, and its phrase is `arg1 + " " + arg2` and bracket-free |
| PhraseMentions.CommentMentions | src/make_feedback_tool_data/make_data_for_feedback_tool.py:73-86 | every mention of a comment has one of the six allowed label pairs as key |
| PhraseMentions.CommentMentionsAppend | src/make_feedback_tool_data/make_data_for_feedback_tool.py:73-86 | the mentions of `a + b` are the mentions of `a` followed by those of `b`: each combination contributes independently of the ones before it |
| PhraseMentions.ExtractPhraseMentions | src/make_feedback_tool_data/make_data_for_feedback_tool.py:65-88 | one mention list per comment, in comment order, each equal to that comment's mentions |
| PhraseMentions.RecordedPositionsExact | src/make_feedback_tool_data/make_data_for_feedback_tool.py:73-80 | the recorded positions are strictly increasing and are exactly those of combinations with an allowed label pair |
| PhraseMentions.MentionsFollowRecorded | src/make_feedback_tool_data/make_data_for_feedback_tool.py:73-86 | the k-th mention is built from the k-th allowed combination: none skipped, none extra, input order kept |
| PhraseMentions.MentionShape | src/make_feedback_tool_data/make_data_for_feedback_tool.py:74-86 | the args are the texts with `( ) [ ] +` deleted and then lower-cased, and the theme is built from the lower-cased, unstripped texts |
| Flattening.FlatMapAt | src/make_feedback_tool_data/make_data_for_feedback_tool.py:49-50 | item j of inner list i lands at the position after all items of the earlier lists, plus j |
| Flattening.Lemmas | src/make_feedback_tool_data/make_data_for_feedback_tool.py:49 | there is one lemma per token |
| Flattening.Words | src/make_feedback_tool_data/make_data_for_feedback_tool.py:50 | there is one word per token |
| Flattening.LemmasAndWordsAt | src/make_feedback_tool_data/make_data_for_feedback_tool.py:49-50 | the lemma and word of token j of sentence i sit at the same index, in sentence-then-token order, taking components 2 and 0 |
| Flattening.PresentValues | src/make_feedback_tool_data/make_data_for_feedback_tool.py:103-105 | dropping the `None` values shortens a dictionary's values by exactly the number of `None` entries |
| Flattening.PresentValuesExact | src/make_feedback_tool_data/make_data_for_feedback_tool.py:103-105 | a value is kept if and only if it occurs as a non-`None` value |
| Flattening.PresentPerDict | src/make_feedback_tool_data/make_data_for_feedback_tool.py:103-105 | filtering each dictionary in turn yields no more values than the dictionaries hold |
| Flattening.PresentPerDictConcat | src/make_feedback_tool_data/make_data_for_feedback_tool.py:103-105 | filtering each dictionary then concatenating equals filtering all values in order |
| Flattening.PhraseList | src/make_feedback_tool_data/make_data_for_feedback_tool.py:103-106 | the phrase list is the non-`None` values of all dictionaries in order, and `[]` for a missing cell |
| Flattening.PhraseColumn | src/make_feedback_tool_data/make_data_for_feedback_tool.py:108 | the column is `""` for an empty phrase list, and otherwise is as long as the phrases plus two characters between each two |
| Flattening.PhraseColumnSplits | src/make_feedback_tool_data/make_data_for_feedback_tool.py:108 | splitting the phrase column on `", "` gives the phrase list back when no phrase contains `", "` |
| Flattening.PhraseColumnEmpty | src/make_feedback_tool_data/make_data_for_feedback_tool.py:103-108 | a missing cell, or one whose values are all `None`, gives the empty column |
| RowFilter.ByLength | src/make_feedback_tool_data/make_data_for_feedback_tool.py:26 | an input row is kept if and only if its PII-removed comment is shorter than the threshold, and nothing else is kept |
| RowFilter.WithLanguage | src/make_feedback_tool_data/make_data_for_feedback_tool.py:28 | every row is kept, in order, with the language detected for its PII-removed comment |
| RowFilter.ByLengthAppend | src/make_feedback_tool_data/make_data_for_feedback_tool.py:26 | the length filter works row by row: filtering `a + b` gives the result for `a` followed by the result for `b`, so rows keep their input order and appear once |
| RowFilter.ByLanguage | src/make_feedback_tool_data/make_data_for_feedback_tool.py:35-37 | an input row is kept if and only if its language is `en`, `un`, `-` or `sco`, and nothing else is kept |
| RowFilter.ByLanguageAppend | src/make_feedback_tool_data/make_data_for_feedback_tool.py:35-37 | the language filter works row by row: filtering `a + b` gives the result for `a` followed by the result for `b`, so rows keep their input order and appear once |
| RowFilter.StagesAreOnePass | src/make_feedback_tool_data/make_data_for_feedback_tool.py:26-37 | length filter, language detection, then language filter equals one in-order pass keeping rows that meet both conditions |
| RowFilter.PreprocessFilter | src/make_feedback_tool_data/make_data_for_feedback_tool.py:26-37 | the filter equals the one-pass reference `RowFilter.Surviving` |
| RowFilter.SurvivingExact | src/make_feedback_tool_data/make_data_for_feedback_tool.py:26-37 | a row survives if and only if its PII-removed comment is shorter than the threshold and its detected language is `en`, `un`, `-` or `sco` |
| RowFilter.PreprocessFilterDefault | src/make_feedback_tool_data/make_data_for_feedback_tool.py:18-37 | at the default threshold 4000, the only one the pipeline uses, the result is the one-pass in-order filter, and a row survives if and only if its PII-removed comment has fewer than 4000 characters and its detected language is an English code |

## Left out

- Reading and writing CSV files, `os.getenv`, `nltk.download`, the logging configuration and the `tqdm` progress bars: I/O.
- PII removal, language detection, part-of-speech tagging, the chunk parser, the pair-wise combination step, `regex_for_theme`, `regex_group_verbs`, `resolve_function` and `find_needle`: their source is not part of this model. Their results are given values or parameters.
- The `theme_mentions_user` column (line 89) and the `user_phrases` columns built from it: they depend only on `resolve_function`, which is not part of this model. The same flattening and join apply to them.
- The language-share percentages logged at lines 30-33: floating-point values used only for logging. The `KeyError` they raise when no row has language `en` or `-` is not modelled either.
- Column selection and renaming (lines 150-174): data-frame schema plumbing.
- PyStrings.Lower: lower-cases only the ASCII and Latin-1 upper-case letters. Python's `str.lower` also maps other scripts, and some characters become two, so mention args with such letters are not modelled beyond those two ranges.
- PyStrings.LowerChar: the same restriction as `PyStrings.Lower`.
- Flattening.LemmasAndWordsAt: tokens are modelled with exactly three components, so the `IndexError` of a token with fewer is not modelled.
- Dictionaries from `find_needle` are modelled by their values in insertion order. Their keys are never read by the code.
- Comment cells that are neither text nor NaN are not modelled: a cell is a text or missing.
- PII-removed comments (`Q3_pii_removed`) are taken to be text. A non-text one, such as a NaN comment passed through PII removal, has length NaN at line 26, fails `< length_threshold` and is dropped before language detection; that branch is not modelled.
- RowFilter.SurvivingExact: states membership. The order of surviving rows is given by the one-pass definition `RowFilter.Surviving` that `RowFilter.PreprocessFilter` is proved equal to. No separate subsequence lemma is stated.
