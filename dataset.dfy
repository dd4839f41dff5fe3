/** The main block of build_triples.py: the collected functions become a
    data frame whose columns are rewritten in place (clean names, a row
    index, sanitised code and docstrings, negative examples) and then
    projected into the three tables the retrieval model is trained and
    evaluated on. */
module DataSet {

  import opened FuncNames
  import opened Sanitize
  import opened Permutations
  import opened NegativeSampler

  /** One function record of a shard, with the fields the script uses and
      the four it drops. */
  datatype Record = Record(
    repo: string, path: string, funcName: string, originalString: string, language: string,
    code: string, docstring: string, url: string, sha: string, partition: string)

  /** A row of `triples.tsv`: query, positive passage, negative passage. */
  datatype Triple = Triple(docstring: string, code: string, negative: string)

  /** A row of `collection.tsv`: passage id and passage. */
  datatype CollectionRow = CollectionRow(index: nat, code: string)

  /** A row of `full_data.tsv`, kept for evaluation and for showing the
      original function. */
  datatype EvaluationRow = EvaluationRow(index: nat, originalString: string, url: string, language: string, funcName: string)

  /** The data frame after `drop(columns=["repo", "path", "sha",
      "partition"])`: one sequence per column, all of the same length.
      `index` and `negative` are empty until lines 72 and 82 add them. */
  class Frame {
    var funcName: seq<string>
    var originalString: seq<string>
    var language: seq<string>
    var code: seq<string>
    var docstring: seq<string>
    var url: seq<string>
    var index: seq<nat>
    var negative: seq<string>
    /** Whether the frame has columns at all: `from_records` of no records
        gives a frame without any. */
    var hasColumns: bool

    /** The number of rows. */
    function Rows(): nat
      reads this
    {
      |code|
    }

    /** Every kept column has one entry per row. */
    predicate Valid()
      reads this
    {
      && |funcName| == |code| && |originalString| == |code| && |language| == |code|
      && |docstring| == |code| && |url| == |code|
    }

    /** Line 33, `pd.DataFrame.from_records`: the fields of every record
        that the `drop` of line 66 keeps, in record order; no records give
        a frame without columns. */
    constructor FromRecords(records: seq<Record>)
      ensures Valid() && Rows() == |records|
      ensures hasColumns <==> records != []
      ensures forall i :: 0 <= i < |records| ==>
        && funcName[i] == records[i].funcName && originalString[i] == records[i].originalString
        && language[i] == records[i].language && code[i] == records[i].code
        && docstring[i] == records[i].docstring && url[i] == records[i].url
      ensures index == [] && negative == []
    {
      funcName := seq(|records|, i requires 0 <= i < |records| => records[i].funcName);
      originalString := seq(|records|, i requires 0 <= i < |records| => records[i].originalString);
      language := seq(|records|, i requires 0 <= i < |records| => records[i].language);
      code := seq(|records|, i requires 0 <= i < |records| => records[i].code);
      docstring := seq(|records|, i requires 0 <= i < |records| => records[i].docstring);
      url := seq(|records|, i requires 0 <= i < |records| => records[i].url);
      index := [];
      negative := [];
      hasColumns := records != [];
    }

    /** Line 66, `drop(columns=["repo", "path", "sha", "partition"])`:
        raises `KeyError` on a frame without columns. Otherwise it removes
        four columns that this frame does not hold. */
    method DropUnusedColumns() returns (keyError: bool)
      ensures keyError <==> !hasColumns
    {
      keyError := !hasColumns;
    }

    /** Line 69: every function name is replaced by its cleaned form, which
        holds no `.` and neither starts nor ends with `_`. */
    method CleanFuncNames()
      requires Valid()
      modifies this`funcName
      ensures Valid()
      ensures forall i :: 0 <= i < Rows() ==> funcName[i] == CleanFuncName(old(funcName)[i])
      ensures forall i :: 0 <= i < Rows() ==> '.' !in funcName[i]
    {
      var names := funcName;
      funcName := seq(|names|, i requires 0 <= i < |names| => CleanFuncName(names[i]));
    }

    /** Line 72: the `index` column is the row position. */
    method AssignIndex()
      modifies this`index
      ensures |index| == Rows()
      ensures forall i :: 0 <= i < Rows() ==> index[i] == i
    {
      index := Indices(|code|);
    }

    /** Lines 75-76: tabs, newlines and carriage returns in `code` and
        `docstring` become spaces; nothing else moves. */
    method SanitizeColumns()
      requires Valid()
      modifies this`code, this`docstring
      ensures Valid() && Rows() == old(Rows())
      ensures forall i :: 0 <= i < Rows() ==> code[i] == SanitizeText(old(code)[i])
      ensures forall i :: 0 <= i < Rows() ==> docstring[i] == SanitizeText(old(docstring)[i])
    {
      var codes, docs := code, docstring;
      code := seq(|codes|, i requires 0 <= i < |codes| => SanitizeText(codes[i]));
      docstring := seq(|docs|, i requires 0 <= i < |docs| => SanitizeText(docs[i]));
    }

    /** Line 82: the `negative_example` column from the shuffle `perm` and
        the redraws `draws`. When the draws run out the column is left as
        it was. */
    method AddNegatives(perm: seq<nat>, draws: seq<nat>) returns (r: Outcome)
      requires IsPermutation(perm, Rows())
      requires Positions(draws, Rows())
      modifies this`negative
      ensures r == SampleNegatives(code, perm, draws)
      ensures r.Sampled? ==> negative == r.negatives
      ensures r.Sampled? ==> forall i :: 0 <= i < Rows() ==> negative[i] != code[i]
      ensures r.Sampled? ==> forall i :: 0 <= i < Rows() ==> negative[i] in code
      ensures r.DrawsExhausted? ==> negative == old(negative)
    {
      var column := new string[|code|];
      forall i | 0 <= i < column.Length {
        column[i] := code[i];
      }
      assert column[..] == code;
      r := AddNegativeExamples(column, perm, draws);
      SampleNegativesSpec(code, perm, draws);
      if r.Sampled? {
        negative := r.negatives;
      }
    }

    /** Line 84: `df.loc[:, ["docstring", "code", "negative_example"]]`. */
    function Triples(): (triples: seq<Triple>)
      reads this
      requires Valid() && |negative| == Rows()
      ensures |triples| == Rows()
      ensures forall i :: 0 <= i < |triples| ==>
        triples[i].docstring == docstring[i] && triples[i].code == code[i] && triples[i].negative == negative[i]
    {
      var docs, codes, negatives := docstring, code, negative;
      seq(|codes|, i requires 0 <= i < |codes| => Triple(docs[i], codes[i], negatives[i]))
    }

    /** Line 87: `df.loc[:, ["index", "code"]]`. */
    function Collection(): (collection: seq<CollectionRow>)
      reads this
      requires |index| == Rows()
      ensures |collection| == Rows()
      ensures forall i :: 0 <= i < |collection| ==> collection[i].index == index[i] && collection[i].code == code[i]
    {
      var ids, codes := index, code;
      seq(|codes|, i requires 0 <= i < |codes| => CollectionRow(ids[i], codes[i]))
    }

    /** Line 91: `df.loc[:, ["index", "original_string", "url", "language",
        "func_name"]]`. */
    function Evaluation(): (evaluation: seq<EvaluationRow>)
      reads this
      requires Valid() && |index| == Rows()
      ensures |evaluation| == Rows()
      ensures forall i :: 0 <= i < |evaluation| ==>
        && evaluation[i].index == index[i] && evaluation[i].originalString == originalString[i]
        && evaluation[i].url == url[i] && evaluation[i].language == language[i]
        && evaluation[i].funcName == funcName[i]
    {
      var ids, originals, urls, languages, names := index, originalString, url, language, funcName;
      seq(|ids|, i requires 0 <= i < |ids| =>
        EvaluationRow(ids[i], originals[i], urls[i], languages[i], names[i]))
    }
  }

  /** The `code` column once sanitised: what the sampler shuffles. */
  function SanitizedCode(records: seq<Record>): (column: seq<string>)
    ensures |column| == |records|
  {
    seq(|records|, i requires 0 <= i < |records| => SanitizeText(records[i].code))
  }

  /** The three tables, the row at which the sampler ran out of draws
      (with unbounded draws the script would still be looping there), or
      the `KeyError` of line 66 when there are no records. */
  datatype Build =
    | Written(triples: seq<Triple>, collection: seq<CollectionRow>, evaluation: seq<EvaluationRow>)
    | SamplerStuck(row: nat)
    | MissingColumns

  /** What lines 66-76 make of the records: the kept columns in record
      order, cleaned names, the row position as index, and sanitised code
      and docstrings. */
  predicate Prepared(records: seq<Record>, df: Frame)
    reads df`funcName, df`originalString, df`language, df`code, df`docstring, df`url, df`index
  {
    && df.funcName == seq(|records|, i requires 0 <= i < |records| => CleanFuncName(records[i].funcName))
    && df.originalString == seq(|records|, i requires 0 <= i < |records| => records[i].originalString)
    && df.language == seq(|records|, i requires 0 <= i < |records| => records[i].language)
    && df.code == SanitizedCode(records)
    && df.docstring == seq(|records|, i requires 0 <= i < |records| => SanitizeText(records[i].docstring))
    && df.url == seq(|records|, i requires 0 <= i < |records| => records[i].url)
    && df.index == Indices(|records|)
  }

  /** What the three tables hold: one row per record, in record order. A
      triple holds the record's sanitised docstring and code and a negative
      that differs from that code and is the code of some row; the
      collection pairs the row position with the sanitised code; the
      evaluation table carries the row position, the original string, url
      and language, and the cleaned function name. */
  predicate TablesOf(records: seq<Record>, b: Build) {
    && b.Written?
    && |b.triples| == |records| && |b.collection| == |records| && |b.evaluation| == |records|
    && (forall i :: 0 <= i < |records| ==>
      && b.triples[i].docstring == SanitizeText(records[i].docstring)
      && b.triples[i].code == SanitizeText(records[i].code)
      && b.triples[i].negative != b.triples[i].code)
    && (forall i :: 0 <= i < |records| ==> b.triples[i].negative in SanitizedCode(records))
    && (forall i :: 0 <= i < |records| ==> b.collection[i] == CollectionRow(i, SanitizeText(records[i].code)))
    && (forall i :: 0 <= i < |records| ==>
      b.evaluation[i] == EvaluationRow(i, records[i].originalString, records[i].url,
                                       records[i].language, CleanFuncName(records[i].funcName)))
  }

  /** No text field of `triples.tsv` or `collection.tsv` holds a tab, a
      newline or a carriage return, so the tables parse back into the rows
      they were written from: the reason for lines 75-76. The negatives
      are clean too, because each is a sanitised code string. */
  lemma TablesAreTsvSafe(records: seq<Record>, b: Build)
    requires TablesOf(records, b)
    ensures forall i, j :: 0 <= i < |b.triples| && 0 <= j < |b.triples[i].docstring| ==> !IsDelimiter(b.triples[i].docstring[j])
    ensures forall i, j :: 0 <= i < |b.triples| && 0 <= j < |b.triples[i].code| ==> !IsDelimiter(b.triples[i].code[j])
    ensures forall i, j :: 0 <= i < |b.triples| && 0 <= j < |b.triples[i].negative| ==> !IsDelimiter(b.triples[i].negative[j])
    ensures forall i, j :: 0 <= i < |b.collection| && 0 <= j < |b.collection[i].code| ==> !IsDelimiter(b.collection[i].code[j])
  {
  }

  /** Lines 64-76: the frame of the records with cleaned names, the row
      index, and sanitised code and docstrings; `null` when the drop of
      line 66 raises because there are no records. */
  method PrepareFrame(records: seq<Record>) returns (df: Frame?)
    ensures df == null <==> records == []
    ensures df != null ==> fresh(df) && df.Valid() && df.Rows() == |records| && Prepared(records, df)
  {
    var frame := new Frame.FromRecords(records);
    var keyError := frame.DropUnusedColumns();
    if keyError {
      return null;
    }
    df := frame;
    df.CleanFuncNames();
    assert df.funcName == seq(|records|, i requires 0 <= i < |records| => CleanFuncName(records[i].funcName));
    df.AssignIndex();
    df.SanitizeColumns();
  }

  /** The negative column of the triples is `negatives`, row by row. */
  predicate NegativesOf(b: Build, negatives: seq<string>) {
    && b.Written?
    && |b.triples| == |negatives|
    && forall i :: 0 <= i < |negatives| ==> b.triples[i].negative == negatives[i]
  }

  /** Lines 84-91: the three projections of the prepared frame once every
      row has a negative that differs from its code and is some row's
      code. */
  method ProjectTables(records: seq<Record>, df: Frame) returns (b: Build)
    requires df.Valid() && Prepared(records, df) && |df.negative| == |records|
    requires forall i :: 0 <= i < |records| ==> df.negative[i] != df.code[i]
    requires forall i :: 0 <= i < |records| ==> df.negative[i] in df.code
    ensures TablesOf(records, b)
    ensures NegativesOf(b, df.negative)
  {
    b := Written(df.Triples(), df.Collection(), df.Evaluation());
    ghost var column := SanitizedCode(records);
    forall i | 0 <= i < |records| ensures column[i] == SanitizeText(records[i].code) {
    }
  }

  /** The main block from line 66 to the projections of lines 84-91: the
      tables are written exactly when the sampler finds every negative,
      and then hold what `TablesOf` says. */
  method BuildTables(records: seq<Record>, perm: seq<nat>, draws: seq<nat>) returns (b: Build)
    requires IsPermutation(perm, |records|)
    requires Positions(draws, |records|)
    ensures b.MissingColumns? <==> records == []
    ensures b.Written? <==> records != [] && SampleNegatives(SanitizedCode(records), perm, draws).Sampled?
    ensures b.Written? ==> TablesOf(records, b)
    ensures b.Written? ==> NegativesOf(b, SampleNegatives(SanitizedCode(records), perm, draws).negatives)
    ensures b.SamplerStuck? ==> b.row < |records|
  {
    var df := PrepareFrame(records);
    if df == null {
      return MissingColumns;
    }
    var sampled := df.AddNegatives(perm, draws);
    if sampled.DrawsExhausted? {
      return SamplerStuck(sampled.row);
    }
    b := ProjectTables(records, df);
  }
}
