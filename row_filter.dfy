/**
 * `preproccess_filter_comment_text`: survey rows are kept when their
 * PII-removed comment is shorter than the length threshold and the language
 * detected for it is one of the codes treated as English.
 *
 * PII removal and language detection are not part of this model: each row
 * carries its PII-removed comment, and the detector is a parameter.
 */
module RowFilter {

  /** The default `length_threshold`. */
  const DefaultLengthThreshold: int := 4000

  /** The language codes kept by `isin(["en", "un", "-", "sco"])`. */
  const EnglishCodes: seq<string> := ["en", "un", "-", "sco"]

  /** A survey row: its other columns and its PII-removed comment `Q3_pii_removed`. */
  datatype Row<T> = Row(columns: T, piiRemoved: string)

  /** A row with its detected `language` column added. */
  datatype Detected<T> = Detected(row: Row<T>, language: string)

  /**
   * `full_df[full_df.Q3_pii_removed.str.len() < length_threshold]`: a row of the
   * input is kept exactly when its PII-removed comment is shorter than the threshold.
   */
  function ByLength<T>(rows: seq<Row<T>>, threshold: int): (r: seq<Row<T>>)
    ensures |r| <= |rows|
    ensures forall k :: 0 <= k < |r| ==> r[k] in rows && |r[k].piiRemoved| < threshold
    ensures forall i :: 0 <= i < |rows| && |rows[i].piiRemoved| < threshold ==> rows[i] in r
  {
    if rows == [] then []
    else if |rows[0].piiRemoved| < threshold then [rows[0]] + ByLength(rows[1..], threshold)
    else ByLength(rows[1..], threshold)
  }

  /**
   * `full_df.assign(language=full_df['Q3_pii_removed'].map(detect_language))`:
   * every row, in order, with the language detected for its PII-removed comment.
   */
  function WithLanguage<T>(rows: seq<Row<T>>, detect: string -> string): (r: seq<Detected<T>>)
    ensures |r| == |rows|
    ensures forall k :: 0 <= k < |rows| ==> r[k] == Detected(rows[k], detect(rows[k].piiRemoved))
  {
    if rows == [] then []
    else [Detected(rows[0], detect(rows[0].piiRemoved))] + WithLanguage(rows[1..], detect)
  }

  /**
   * `full_df[full_df['language'].isin(["en", "un", "-", "sco"])]`: a row of the
   * input is kept exactly when its language is one of the English codes.
   */
  function ByLanguage<T>(rows: seq<Detected<T>>): (r: seq<Detected<T>>)
    ensures |r| <= |rows|
    ensures forall k :: 0 <= k < |r| ==> r[k] in rows && r[k].language in EnglishCodes
    ensures forall i :: 0 <= i < |rows| && rows[i].language in EnglishCodes ==> rows[i] in r
  {
    if rows == [] then []
    else if rows[0].language in EnglishCodes then [rows[0]] + ByLanguage(rows[1..])
    else ByLanguage(rows[1..])
  }

  /**
   * The three steps in the order the code runs them; the result is the
   * one-pass filter `Surviving`.
   */
  function PreprocessFilter<T>(rows: seq<Row<T>>, detect: string -> string, threshold: int): (r: seq<Detected<T>>)
    ensures r == Surviving(rows, detect, threshold)
  {
    StagesAreOnePass(rows, detect, threshold);
    ByLanguage(WithLanguage(ByLength(rows, threshold), detect))
  }

  /**
   * The filter at the default threshold, the only one the pipeline uses: a row
   * survives exactly when its PII-removed comment has fewer than 4000
   * characters and its detected language is an English code.
   */
  function PreprocessFilterDefault<T>(rows: seq<Row<T>>, detect: string -> string): (r: seq<Detected<T>>)
    ensures r == Surviving(rows, detect, DefaultLengthThreshold)
    ensures forall k :: 0 <= k < |r| ==>
      r[k].row in rows && |r[k].row.piiRemoved| < 4000 && r[k].language == detect(r[k].row.piiRemoved) && r[k].language in EnglishCodes
    ensures forall i :: 0 <= i < |rows| && |rows[i].piiRemoved| < 4000 && detect(rows[i].piiRemoved) in EnglishCodes ==>
      Detected(rows[i], detect(rows[i].piiRemoved)) in r
  {
    SurvivingExact(rows, detect, DefaultLengthThreshold);
    PreprocessFilter(rows, detect, DefaultLengthThreshold)
  }

  /**
   * The length filter works row by row: filtering `a + b` is filtering `a`,
   * then `b`. With the one-row case of its definition this fixes the result,
   * order and multiplicity included.
   */
  lemma {:induction false} ByLengthAppend<T>(a: seq<Row<T>>, b: seq<Row<T>>, threshold: int)
    ensures ByLength(a + b, threshold) == ByLength(a, threshold) + ByLength(b, threshold)
  {
    if a == [] {
      assert a + b == b;
    } else {
      assert (a + b)[0] == a[0] && (a + b)[1..] == a[1..] + b;
      ByLengthAppend(a[1..], b, threshold);
    }
  }

  /** The language filter works row by row: filtering `a + b` is filtering `a`, then `b`. */
  lemma {:induction false} ByLanguageAppend<T>(a: seq<Detected<T>>, b: seq<Detected<T>>)
    ensures ByLanguage(a + b) == ByLanguage(a) + ByLanguage(b)
  {
    if a == [] {
      assert a + b == b;
    } else {
      assert (a + b)[0] == a[0] && (a + b)[1..] == a[1..] + b;
      ByLanguageAppend(a[1..], b);
    }
  }

  /** The condition a row must meet to survive. */
  predicate Survives<T>(row: Row<T>, detect: string -> string, threshold: int) {
    |row.piiRemoved| < threshold && detect(row.piiRemoved) in EnglishCodes
  }

  /** Reference definition: one pass that keeps, in order, each row meeting both conditions. */
  function Surviving<T>(rows: seq<Row<T>>, detect: string -> string, threshold: int): seq<Detected<T>> {
    if rows == [] then []
    else
      (if Survives(rows[0], detect, threshold) then [Detected(rows[0], detect(rows[0].piiRemoved))] else [])
      + Surviving(rows[1..], detect, threshold)
  }

  /** Filtering by length, then detecting and filtering by language, is the one-pass filter. */
  lemma {:induction false} StagesAreOnePass<T>(rows: seq<Row<T>>, detect: string -> string, threshold: int)
    ensures ByLanguage(WithLanguage(ByLength(rows, threshold), detect)) == Surviving(rows, detect, threshold)
  {
    if rows != [] {
      var r := rows[0];
      var rest := rows[1..];
      StagesAreOnePass(rest, detect, threshold);
      if |r.piiRemoved| < threshold {
        var short := [r] + ByLength(rest, threshold);
        assert short[0] == r && short[1..] == ByLength(rest, threshold);
        var tagged := WithLanguage(short, detect);
        assert tagged == [Detected(r, detect(r.piiRemoved))] + WithLanguage(ByLength(rest, threshold), detect);
        assert tagged[0] == Detected(r, detect(r.piiRemoved));
        assert tagged[1..] == WithLanguage(ByLength(rest, threshold), detect);
      }
    }
  }

  /**
   * A row survives exactly when its PII-removed comment is shorter than the
   * threshold and its detected language is one of the English codes; it keeps
   * its detected language.
   */
  lemma {:induction false} SurvivingExact<T>(rows: seq<Row<T>>, detect: string -> string, threshold: int)
    ensures forall d :: d in Surviving(rows, detect, threshold) <==>
      d.row in rows && Survives(d.row, detect, threshold) && d.language == detect(d.row.piiRemoved)
  {
    if rows != [] {
      SurvivingExact(rows[1..], detect, threshold);
      assert rows == [rows[0]] + rows[1..];
    }
  }
}
