/**
  `detect_and_return` of `analyzer.py`: labels each review row with the top
  label of a text-classification pipeline, short-circuiting blank text to
  "unknown".

  The pipeline is a parameter: `classify(text)` is what `pipe(text)` returns,
  or the text of the exception it raised. Its output is a nested value of
  which only the shape matters here. An exception -- from the pipeline, or an
  index or key error while picking the label -- ends the whole call; the model
  returns it as `Err`.
 */
module Analyzer {
  import opened Wrappers
  import opened Text

  /** One input row: its `id` and its text column, as `astype(str)` gives it. */
  datatype Row = Row(id: int, text: string)

  /** One output row, with exactly the columns `id` and `emotion`. */
  datatype LabelRow = LabelRow(id: int, emotion: string)

  /**
    A pipeline result: a dict (with or without a `label` key), a list, or
    anything else.
   */
  datatype Output = Dict(labelEntry: Option<string>) | List(items: seq<Output>) | Other

  type Classifier = string -> Result<Output, string>

  /** The pipeline sees at most the first 512 characters. */
  const MaxChars: nat := 512

  /** `text[:512]`. */
  function Truncate(text: string): (r: string)
    ensures |r| == if |text| <= MaxChars then |text| else MaxChars
    ensures r == text[..|r|]
  {
    if |text| <= MaxChars then text else text[..MaxChars]
  }

  /** `d['label']`: the label of a dict; any other value cannot be indexed by a string. */
  function LabelOf(d: Output): Result<string, string>
  {
    match d
    case Dict(Some(l)) => Ok(l)
    case Dict(None) => Err("KeyError: 'label'")
    case _ => Err("TypeError: not a dict")
  }

  /**
    The label choice: `out[0]['label']` for a list of dicts, `out[0][0]['label']`
    for a list of lists, "unknown" for anything else. Indexing an empty list
    raises.
   */
  function PickLabel(out: Output): (r: Result<string, string>)
    ensures !out.List? ==> r == Ok("unknown")
    ensures out.List? && out.items == [] ==> r.Err?
    ensures out.List? && out.items != [] && !out.items[0].Dict? && !out.items[0].List? ==> r == Ok("unknown")
  {
    match out
    case List(items) =>
      if items == [] then Err("IndexError: list index out of range")
      else if items[0].Dict? then LabelOf(items[0])
      else if items[0].List? then
        if items[0].items == [] then Err("IndexError: list index out of range")
        else LabelOf(items[0].items[0])
      else Ok("unknown")
    case _ => Ok("unknown")
  }

  /**
    A label other than the "unknown" fallback is read from the dict at
    `out[0]` or at `out[0][0]`, whichever the shape of `out` selects; an
    empty inner list, a dict without a label and a non-dict at `out[0][0]`
    fail.
   */
  lemma PickLabelShapes(out: Output)
    ensures PickLabel(out).Ok? && PickLabel(out).value != "unknown" ==>
              out.List? && out.items != [] &&
              (|| (out.items[0].Dict? && out.items[0].labelEntry == Some(PickLabel(out).value))
               || (out.items[0].List? && out.items[0].items != [] &&
                   out.items[0].items[0] == Dict(Some(PickLabel(out).value))))
    ensures forall l, rest :: PickLabel(List([Dict(Some(l))] + rest)) == Ok(l)
    ensures forall l, inner, rest :: PickLabel(List([List([Dict(Some(l))] + inner)] + rest)) == Ok(l)
    ensures forall rest :: PickLabel(List([Dict(None)] + rest)).Err?
    ensures forall rest :: PickLabel(List([List([])] + rest)).Err?
    ensures forall inner, rest :: PickLabel(List([List([Dict(None)] + inner)] + rest)).Err?
    ensures forall o: Output, inner, rest :: !o.Dict? ==> PickLabel(List([List([o] + inner)] + rest)).Err?
  {
  }

  /** The label of one text: "unknown" for blank text, otherwise the pipeline's top label. */
  function LabelFor(text: string, classify: Classifier): Result<string, string>
  {
    if IsBlank(text) then Ok("unknown")
    else
      match classify(Truncate(text))
      case Err(e) => Err(e)
      case Ok(out) => PickLabel(out)
  }

  /**
    Blank text is labelled "unknown" whatever the pipeline would answer, and
    the pipeline receives nothing for it.
   */
  lemma BlankIsUnknown(rows: seq<Row>, i: nat)
    requires i < |rows| && IsBlank(rows[i].text)
    ensures forall classify: Classifier :: LabelFor(rows[i].text, classify) == Ok("unknown")
    ensures Calls(rows[..i + 1]) == Calls(rows[..i])
  {
    CallsStep(rows, i);
  }

  /** Label choice ignores everything after the first 512 characters of a non-blank text. */
  lemma LabelForTruncated(text: string, extra: string, classify: Classifier)
    requires |text| >= MaxChars && !IsBlank(text)
    ensures LabelFor(text + extra, classify) == LabelFor(text, classify)
  {
    var i :| 0 <= i < |text| && text[i] !in Whitespace;
    assert (text + extra)[i] == text[i];
    assert (text + extra)[..MaxChars] == text[..MaxChars];
  }

  /**
    Blankness is judged on the whole text, before truncation: a text whose
    first 512 characters are whitespace but which goes on with something else
    is not blank, so the pipeline receives those 512 whitespace characters,
    which alone would have been labelled "unknown" without a call.
   */
  lemma BlankPrefixReachesPipeline(text: string, classify: Classifier)
    requires |text| > MaxChars && IsBlank(text[..MaxChars]) && !IsBlank(text)
    ensures Truncate(text) == text[..MaxChars] && IsBlank(Truncate(text))
    ensures LabelFor(Truncate(text), classify) == Ok("unknown")
    ensures classify(Truncate(text)).Ok? ==> LabelFor(text, classify) == PickLabel(classify(Truncate(text)).value)
    ensures classify(Truncate(text)).Err? ==> LabelFor(text, classify) == Err(classify(Truncate(text)).error)
  {
  }

  /** The texts the pipeline is called with, in row order: the truncated non-blank ones. */
  function Calls(rows: seq<Row>): (r: seq<string>)
    ensures |r| <= |rows|
    ensures forall c :: c in r ==> |c| <= MaxChars
  {
    if rows == [] then []
    else
      var last := rows[|rows| - 1];
      Calls(rows[..|rows| - 1]) + if IsBlank(last.text) then [] else [Truncate(last.text)]
  }

  lemma CallsStep(rows: seq<Row>, i: nat)
    requires i < |rows|
    ensures Calls(rows[..i + 1]) == Calls(rows[..i]) + if IsBlank(rows[i].text) then [] else [Truncate(rows[i].text)]
  {
    assert rows[..i + 1][..i] == rows[..i];
  }

  /** Every text the pipeline receives is the truncation of a non-blank row text. */
  lemma {:induction false} CallsFromRows(rows: seq<Row>, c: string)
    requires c in Calls(rows)
    ensures exists i :: 0 <= i < |rows| && !IsBlank(rows[i].text) && c == Truncate(rows[i].text)
    decreases |rows|
  {
    var n := |rows| - 1;
    if c in Calls(rows[..n]) {
      CallsFromRows(rows[..n], c);
      var i :| 0 <= i < n && !IsBlank(rows[..n][i].text) && c == Truncate(rows[..n][i].text);
      assert rows[..n][i] == rows[i];
    } else {
      assert !IsBlank(rows[n].text) && c == Truncate(rows[n].text);
    }
  }

  /** The output rows of labelling `rows` in order, or the first row's failure. */
  function Labels(rows: seq<Row>, classify: Classifier): Result<seq<LabelRow>, string>
  {
    if rows == [] then Ok([])
    else
      var last := rows[|rows| - 1];
      match Labels(rows[..|rows| - 1], classify)
      case Err(e) => Err(e)
      case Ok(prior) =>
        match LabelFor(last.text, classify)
        case Err(e) => Err(e)
        case Ok(emotion) => Ok(prior + [LabelRow(last.id, emotion)])
  }

  /** How many rows are processed: all of them, or up to and including the first failure. */
  function Attempted(rows: seq<Row>, classify: Classifier): (n: nat)
    ensures n <= |rows|
  {
    if rows == [] then 0
    else if Labels(rows[..|rows| - 1], classify).Err? then Attempted(rows[..|rows| - 1], classify)
    else |rows|
  }

  lemma LabelsStep(rows: seq<Row>, i: nat, classify: Classifier)
    requires i < |rows|
    ensures Labels(rows[..i + 1], classify) ==
            match Labels(rows[..i], classify)
            case Err(e) => Err(e)
            case Ok(prior) =>
              match LabelFor(rows[i].text, classify)
              case Err(e) => Err(e)
              case Ok(emotion) => Ok(prior + [LabelRow(rows[i].id, emotion)])
    ensures Attempted(rows[..i + 1], classify) ==
            if Labels(rows[..i], classify).Err? then Attempted(rows[..i], classify) else i + 1
  {
    assert rows[..i + 1][..i] == rows[..i];
  }

  /** Once a prefix of the rows fails, the whole call fails the same way, with nothing more processed. */
  lemma {:induction false} FailureSticks(rows: seq<Row>, m: nat, classify: Classifier)
    requires m <= |rows| && Labels(rows[..m], classify).Err?
    ensures Labels(rows, classify) == Labels(rows[..m], classify)
    ensures Attempted(rows, classify) == Attempted(rows[..m], classify)
    decreases |rows| - m
  {
    if m < |rows| {
      LabelsStep(rows, m, classify);
      FailureSticks(rows, m + 1, classify);
    } else {
      assert rows[..m] == rows;
    }
  }

  /** Row `k` is the first whose label cannot be computed. */
  predicate FailsFirstAt(rows: seq<Row>, classify: Classifier, k: int)
  {
    && 0 <= k < |rows|
    && LabelFor(rows[k].text, classify).Err?
    && forall j :: 0 <= j < k ==> LabelFor(rows[j].text, classify).Ok?
  }

  /**
    Labelling succeeds exactly when every row's label can be computed; then it
    gives one output row per input row, in order, with the row's `id` and its
    label, and every row is processed.
   */
  lemma {:induction false} LabelsSucceed(rows: seq<Row>, classify: Classifier)
    ensures Labels(rows, classify).Ok? <==> forall i :: 0 <= i < |rows| ==> LabelFor(rows[i].text, classify).Ok?
    ensures Labels(rows, classify).Ok? ==>
              && |Labels(rows, classify).value| == |rows|
              && (forall i :: 0 <= i < |rows| ==>
                    Labels(rows, classify).value[i] == LabelRow(rows[i].id, LabelFor(rows[i].text, classify).value))
              && Attempted(rows, classify) == |rows|
    decreases |rows|
  {
    if rows != [] {
      var n := |rows| - 1;
      var prefix := rows[..n];
      LabelsSucceed(prefix, classify);
      assert forall i :: 0 <= i < n ==> prefix[i] == rows[i];
      if Labels(rows, classify).Ok? {
        var prior := Labels(prefix, classify).value;
        assert Labels(rows, classify).value == prior + [LabelRow(rows[n].id, LabelFor(rows[n].text, classify).value)];
      }
    }
  }

  /**
    When labelling fails, it fails with the error of the first row whose label
    cannot be computed, and that row is the last one processed.
   */
  lemma {:induction false} LabelsFail(rows: seq<Row>, classify: Classifier) returns (k: nat)
    requires Labels(rows, classify).Err?
    ensures FailsFirstAt(rows, classify, k)
    ensures Labels(rows, classify).error == LabelFor(rows[k].text, classify).error
    ensures Attempted(rows, classify) == k + 1
    decreases |rows|
  {
    var n := |rows| - 1;
    var prefix := rows[..n];
    assert forall i :: 0 <= i < n ==> prefix[i] == rows[i];
    if Labels(prefix, classify).Err? {
      k := LabelsFail(prefix, classify);
    } else {
      LabelsSucceed(prefix, classify);
      k := n;
    }
  }

  /**
    The body of the loop in `detect_and_return` for one text, step by step:
    the blank test, the truncation and the pipeline call. `LabelFor` is its
    specification, the same step as one expression, which the lemmas about
    labels reason about; this method is proved to agree with it, and also
    returns the text passed to the pipeline if it is called at all.
   */
  method LabelText(text: string, classify: Classifier) returns (emotion: Result<string, string>, input: Option<string>)
    ensures emotion == LabelFor(text, classify)
    ensures input == if IsBlank(text) then None else Some(Truncate(text))
  {
    if IsBlank(text) {
      return Ok("unknown"), None;
    }
    input := Some(Truncate(text));
    var out := classify(input.value);
    if out.Err? {
      return Err(out.error), input;
    }
    emotion := PickLabel(out.value);
  }

  /**
    `detect_and_return`: the rows labelled in order, or the first failure, and
    the texts the pipeline receives up to that point.
   */
  method DetectAndReturn(rows: seq<Row>, classify: Classifier)
    returns (res: Result<seq<LabelRow>, string>, calls: seq<string>)
    ensures res == Labels(rows, classify)
    ensures calls == Calls(rows[..Attempted(rows, classify)])
  {
    var results: seq<LabelRow> := [];
    calls := [];
    for i := 0 to |rows|
      invariant Labels(rows[..i], classify) == Ok(results)
      invariant Attempted(rows[..i], classify) == i
      invariant calls == Calls(rows[..i])
    {
      CallsStep(rows, i);
      LabelsStep(rows, i, classify);
      var emotion, input := LabelText(rows[i].text, classify);
      if input.Some? {
        calls := calls + [input.value];
      }
      if emotion.Err? {
        FailureSticks(rows, i + 1, classify);
        return Err(emotion.error), calls;
      }
      results := results + [LabelRow(rows[i].id, emotion.value)];
    }
    assert rows[..|rows|] == rows;
    res := Ok(results);
  }
}
