/**
 * The cleaned comment column `Q3_x_edit` of the feedback survey: a missing
 * comment becomes the empty text, the characters `( ) [ ] +` are deleted and
 * the remaining words are re-joined with single spaces.
 */
module CommentText {
  import opened Wrappers
  import opened PyStrings

  /** The raw comment with pandas' NaN replaced by the empty text. */
  function RawText(comment: Option<string>): string {
    match comment
    case None => ""
    case Some(text) => text
  }

  /**
   * `' '.join(re.sub(r"[()\[\]+]", "", x).split())` applied to the raw comment.
   * A cleaned comment contains none of `( ) [ ] +`, is single-spaced (no
   * whitespace but single inner spaces) and is empty when the comment is missing.
   */
  function CleanComment(comment: Option<string>): (r: string)
    ensures NoBrackets(r)
    ensures SingleSpaced(r)
    ensures comment.None? ==> r == ""
  {
    var stripped := RemoveBrackets(RawText(comment));
    SplitNoBrackets(stripped);
    JoinNoBrackets(" ", Split(stripped));
    JoinSingleSpaced(Split(stripped));
    Join(" ", Split(stripped))
  }

  /** The words of a cleaned comment are exactly the words of the stripped comment, in order. */
  lemma CleanWords(comment: Option<string>)
    ensures Split(CleanComment(comment)) == Split(RemoveBrackets(RawText(comment)))
  {
    SplitJoin(Split(RemoveBrackets(RawText(comment))));
  }

  /** A text is left unchanged by cleaning exactly when it is bracket-free and single-spaced. */
  lemma CleanFixpoint(text: string)
    ensures CleanComment(Some(text)) == text <==> NoBrackets(text) && SingleSpaced(text)
  {
    if NoBrackets(text) && SingleSpaced(text) {
      RemoveBracketsNoop(text);
      SingleSpacedJoinSplit(text);
    }
  }

  /** Cleaning an already-cleaned comment changes nothing. */
  lemma CleanIdempotent(comment: Option<string>)
    ensures CleanComment(Some(CleanComment(comment))) == CleanComment(comment)
  {
    CleanFixpoint(CleanComment(comment));
  }
}
