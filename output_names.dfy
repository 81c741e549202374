/**
 * Parsers of the directory and file names the pipeline writes its outputs
 * under: `get_encoding_ckpt_id`, `get_decoder_id`, and the file-name pattern of
 * `load_decoding_preds`.
 *
 * Each pattern is stated twice: as a parser that splits the name on hyphens,
 * and as a reference predicate that says, in terms of concatenation, which
 * names the regular expression matches and what its groups capture. The lemmas
 * prove the two agree on every name.
 */
module OutputNames {
  import opened Wrappers
  import opened NameFields

  /** What the parsers raise. */
  datatype NameError =
    | ValueError(message: string)
    | IndexError  // `findall(...)[0]` on an empty list of matches

  /** `(model, run, step)` of an encoding output directory. */
  datatype CheckpointId = CheckpointId(model: string, run: nat, step: nat)

  /** `(model, run, step, subject)` of a decoder output directory or prediction file. */
  datatype DecoderId = DecoderId(model: string, run: nat, step: nat, subject: string)

  const CKPT_MESSAGE := "Failed to extract checkpoint information from encoding directory "
  const PRED_SUFFIX := ".pred.npy"

  /**
   * The text a pattern ending in `$` must match in full. Without MULTILINE,
   * Python's `$` matches at the end of the string and also just before a
   * newline that ends it.
   */
  function BeforeFinalNewline(s: string): (r: string)
    ensures s == r || s == r + "\n"
    ensures r == s <==> (|s| == 0 || s[|s| - 1] != '\n')
  {
    if |s| > 0 && s[|s| - 1] == '\n' then s[..|s| - 1] else s
  }

  // ---------------------------------------------------------------------------
  // get_encoding_ckpt_id: ^([\w_]+)-(\d+)-(\d+)$

  /** The regular expression matches `name` with the groups `model`, `run`, `step`. */
  ghost predicate CheckpointNameMatches(name: string, model: string, run: string, step: string) {
    && IsWord(model) && IsDigits(run) && IsDigits(step)
    && var text := model + "-" + run + "-" + step;
       (name == text || name == text + "\n")
  }

  /** `get_encoding_ckpt_id(encoding_dir)` for a directory name. */
  function GetEncodingCkptId(encodingDir: string): (r: Result<CheckpointId, NameError>)
    ensures r.Success? ==> IsWord(r.value.model) && '-' !in r.value.model
    ensures r.Failure? ==> r.error == ValueError(CKPT_MESSAGE + encodingDir)
  {
    var fields := Split(BeforeFinalNewline(encodingDir));
    if |fields| == 3 && IsWord(fields[0]) && IsDigits(fields[1]) && IsDigits(fields[2]) then
      Success(CheckpointId(fields[0], DecimalValue(fields[1]), DecimalValue(fields[2])))
    else
      Failure(ValueError(CKPT_MESSAGE + encodingDir))
  }

  /** Every name the pattern matches is accepted, with the groups converted by `int`. */
  lemma CheckpointIdAccepts(name: string, model: string, run: string, step: string)
    requires CheckpointNameMatches(name, model, run, step)
    ensures GetEncodingCkptId(name) == Success(CheckpointId(model, DecimalValue(run), DecimalValue(step)))
  {
    var text := model + "-" + run + "-" + step;
    assert BeforeFinalNewline(name) == text by {
      if name == text + "\n" {
        assert (text + "\n")[..|text|] == text;
      }
    }
    JoinThree(model, run, step);
    SplitJoin([model, run, step]);
  }

  /** Only names the pattern matches are accepted; all others raise ValueError. */
  lemma CheckpointIdExact(name: string)
    ensures GetEncodingCkptId(name).Success? <==>
              exists model, run, step :: CheckpointNameMatches(name, model, run, step)
    ensures GetEncodingCkptId(name).Success? ==>
              exists run, step :: CheckpointNameMatches(name, GetEncodingCkptId(name).value.model, run, step) &&
                GetEncodingCkptId(name).value.run == DecimalValue(run) &&
                GetEncodingCkptId(name).value.step == DecimalValue(step)
  {
    var body := BeforeFinalNewline(name);
    var fields := Split(body);
    if GetEncodingCkptId(name).Success? {
      JoinSplit(body);
      JoinThree(fields[0], fields[1], fields[2]);
      assert fields == [fields[0], fields[1], fields[2]];
      assert name == body || name == body + "\n";
      assert CheckpointNameMatches(name, fields[0], fields[1], fields[2]);
    }
    if exists model, run, step :: CheckpointNameMatches(name, model, run, step) {
      var model, run, step :| CheckpointNameMatches(name, model, run, step);
      CheckpointIdAccepts(name, model, run, step);
    }
  }

  /** The directory name `model-run-step` written with `str` for the numbers. */
  function FormatCheckpointId(id: CheckpointId): string {
    id.model + "-" + DecimalString(id.run) + "-" + DecimalString(id.step)
  }

  /** Formatting an identifier with a word model name and parsing it gives it back. */
  lemma CheckpointIdRoundTrip(id: CheckpointId)
    requires IsWord(id.model)
    ensures GetEncodingCkptId(FormatCheckpointId(id)) == Success(id)
  {
    DecimalRoundTrip(id.run);
    DecimalRoundTrip(id.step);
    CheckpointIdAccepts(FormatCheckpointId(id), id.model, DecimalString(id.run), DecimalString(id.step));
  }

  /** A matching name without a final newline and with canonical numbers is formatted back from its parse. */
  lemma CheckpointIdFormatsBack(name: string, model: string, run: string, step: string)
    requires CheckpointNameMatches(name, model, run, step)
    requires name == model + "-" + run + "-" + step
    requires IsCanonicalDecimal(run) && IsCanonicalDecimal(step)
    ensures GetEncodingCkptId(name).Success? && FormatCheckpointId(GetEncodingCkptId(name).value) == name
  {
    CheckpointIdAccepts(name, model, run, step);
    CanonicalDecimalRoundTrip(run);
    CanonicalDecimalRoundTrip(step);
  }

  // ---------------------------------------------------------------------------
  // get_decoder_id: ^([\w_]+)-(\d+)-(\d+)-([\w\d]+)$

  /** The regular expression matches `name` with the groups `model`, `run`, `step`, `subject`. */
  ghost predicate DecoderNameMatches(name: string, model: string, run: string, step: string, subject: string) {
    && IsWord(model) && IsDigits(run) && IsDigits(step) && IsWord(subject)
    && var text := model + "-" + run + "-" + step + "-" + subject;
       (name == text || name == text + "\n")
  }

  /** `get_decoder_id(decoder_dir)` for a directory name. */
  function GetDecoderId(decoderDir: string): (r: Result<DecoderId, NameError>)
    ensures r.Success? ==> IsWord(r.value.model) && IsWord(r.value.subject)
    ensures r.Failure? ==> r.error == IndexError
  {
    var fields := Split(BeforeFinalNewline(decoderDir));
    if |fields| == 4 && IsWord(fields[0]) && IsDigits(fields[1]) && IsDigits(fields[2]) && IsWord(fields[3]) then
      Success(DecoderId(fields[0], DecimalValue(fields[1]), DecimalValue(fields[2]), fields[3]))
    else
      Failure(IndexError)
  }

  /** Every name the pattern matches is accepted, with `run` and `step` converted by `int`. */
  lemma DecoderIdAccepts(name: string, model: string, run: string, step: string, subject: string)
    requires DecoderNameMatches(name, model, run, step, subject)
    ensures GetDecoderId(name) == Success(DecoderId(model, DecimalValue(run), DecimalValue(step), subject))
  {
    var text := model + "-" + run + "-" + step + "-" + subject;
    assert BeforeFinalNewline(name) == text by {
      if name == text + "\n" {
        assert (text + "\n")[..|text|] == text;
      }
    }
    JoinFour(model, run, step, subject);
    SplitJoin([model, run, step, subject]);
  }

  /** Only names the pattern matches are accepted; all others raise IndexError. */
  lemma DecoderIdExact(name: string)
    ensures GetDecoderId(name).Success? <==>
              exists model, run, step, subject :: DecoderNameMatches(name, model, run, step, subject)
    ensures GetDecoderId(name).Success? ==>
              exists run, step :: DecoderNameMatches(name, GetDecoderId(name).value.model, run, step,
                                                     GetDecoderId(name).value.subject) &&
                GetDecoderId(name).value.run == DecimalValue(run) &&
                GetDecoderId(name).value.step == DecimalValue(step)
  {
    var body := BeforeFinalNewline(name);
    var fields := Split(body);
    if GetDecoderId(name).Success? {
      JoinSplit(body);
      JoinFour(fields[0], fields[1], fields[2], fields[3]);
      assert fields == [fields[0], fields[1], fields[2], fields[3]];
      assert name == body || name == body + "\n";
      assert DecoderNameMatches(name, fields[0], fields[1], fields[2], fields[3]);
    }
    if exists model, run, step, subject :: DecoderNameMatches(name, model, run, step, subject) {
      var model, run, step, subject :| DecoderNameMatches(name, model, run, step, subject);
      DecoderIdAccepts(name, model, run, step, subject);
    }
  }

  /** The directory name `model-run-step-subject` written with `str` for the numbers. */
  function FormatDecoderId(id: DecoderId): string {
    id.model + "-" + DecimalString(id.run) + "-" + DecimalString(id.step) + "-" + id.subject
  }

  /** Formatting an identifier with word model and subject names and parsing it gives it back. */
  lemma DecoderIdRoundTrip(id: DecoderId)
    requires IsWord(id.model) && IsWord(id.subject)
    ensures GetDecoderId(FormatDecoderId(id)) == Success(id)
  {
    DecimalRoundTrip(id.run);
    DecimalRoundTrip(id.step);
    DecoderIdAccepts(FormatDecoderId(id), id.model, DecimalString(id.run), DecimalString(id.step), id.subject);
  }

  /** A matching name without a final newline and with canonical numbers is formatted back from its parse. */
  lemma DecoderIdFormatsBack(name: string, model: string, run: string, step: string, subject: string)
    requires DecoderNameMatches(name, model, run, step, subject)
    requires name == model + "-" + run + "-" + step + "-" + subject
    requires IsCanonicalDecimal(run) && IsCanonicalDecimal(step)
    ensures GetDecoderId(name).Success? && FormatDecoderId(GetDecoderId(name).value) == name
  {
    DecoderIdAccepts(name, model, run, step, subject);
    CanonicalDecimalRoundTrip(run);
    CanonicalDecimalRoundTrip(step);
  }

  // ---------------------------------------------------------------------------
  // load_decoding_preds: findall(r"\.(\w+)-run(\d+)-(\d+)-([\w\d]+)\.pred\.npy$", name)[0]

  /** The text the groups of a prediction file name are read from. */
  function KeyText(model: string, run: string, step: string, subject: string): string {
    model + "-run" + run + "-" + step + "-" + subject
  }

  /**
   * The (unanchored) regular expression matches `name` after `prefix`, with the
   * groups `model`, `run`, `step`, `subject`.
   */
  ghost predicate PredictionNameMatches(name: string, prefix: string, model: string, run: string,
                                        step: string, subject: string) {
    && IsWord(model) && IsDigits(run) && IsDigits(step) && IsWord(subject)
    && var text := prefix + "." + KeyText(model, run, step, subject) + PRED_SUFFIX;
       (name == text || name == text + "\n")
  }

  /** The groups of `model-runRUN-STEP-subject`, the text after the dot. */
  function ParseKeyText(tail: string): (r: Result<DecoderId, NameError>)
    ensures r.Success? ==> IsWord(r.value.model) && IsWord(r.value.subject)
    ensures r.Failure? ==> r.error == IndexError
  {
    var fields := Split(tail);
    if && |fields| == 4 && IsWord(fields[0])
       && |fields[1]| >= 3 && fields[1][..3] == "run" && IsDigits(fields[1][3..])
       && IsDigits(fields[2]) && IsWord(fields[3])
    then
      Success(DecoderId(fields[0], DecimalValue(fields[1][3..]), DecimalValue(fields[2]), fields[3]))
    else
      Failure(IndexError)
  }

  /**
   * The key `load_decoding_preds` files a prediction file under. No word character
   * is a dot, so a match can only start at the last dot before the suffix.
   */
  function ParsePredictionName(name: string): (r: Result<DecoderId, NameError>)
    ensures r.Success? ==> IsWord(r.value.model) && IsWord(r.value.subject)
    ensures r.Failure? ==> r.error == IndexError
  {
    var body := BeforeFinalNewline(name);
    if !EndsWith(body, PRED_SUFFIX) then Failure(IndexError)
    else
      var stem := body[..|body| - |PRED_SUFFIX|];
      match LastIndexOf(stem, '.')
      case None => Failure(IndexError)
      case Some(dot) => ParseKeyText(stem[dot + 1..])
  }

  /** Helper: the key text of matching groups parses to those groups. */
  lemma KeyTextAccepts(model: string, run: string, step: string, subject: string)
    requires IsWord(model) && IsDigits(run) && IsDigits(step) && IsWord(subject)
    ensures '.' !in KeyText(model, run, step, subject)
    ensures ParseKeyText(KeyText(model, run, step, subject)) ==
              Success(DecoderId(model, DecimalValue(run), DecimalValue(step), subject))
  {
    var runField := "run" + run;
    assert runField[..3] == "run" && runField[3..] == run;
    assert '-' !in runField && '.' !in runField by {
      forall k | 0 <= k < |runField| ensures runField[k] != '-' && runField[k] != '.' {
        if k >= 3 { assert runField[k] == run[k - 3]; }
      }
    }
    JoinFour(model, runField, step, subject);
    assert Join([model, runField, step, subject]) == KeyText(model, run, step, subject);
    SplitJoin([model, runField, step, subject]);
  }

  /** Helper: key text that parses is the key text of its groups. */
  lemma KeyTextSound(tail: string)
    requires ParseKeyText(tail).Success?
    ensures exists run, step ::
              && IsDigits(run) && IsDigits(step)
              && tail == KeyText(ParseKeyText(tail).value.model, run, step, ParseKeyText(tail).value.subject)
              && ParseKeyText(tail).value.run == DecimalValue(run)
              && ParseKeyText(tail).value.step == DecimalValue(step)
  {
    var fields := Split(tail);
    JoinSplit(tail);
    JoinFour(fields[0], fields[1], fields[2], fields[3]);
    assert fields == [fields[0], fields[1], fields[2], fields[3]];
    var run := fields[1][3..];
    assert fields[1] == "run" + run;
    assert tail == KeyText(fields[0], run, fields[2], fields[3]);
  }

  /** Every name the pattern matches is accepted, with `run` and `step` converted by `int`. */
  lemma PredictionNameAccepts(name: string, prefix: string, model: string, run: string,
                              step: string, subject: string)
    requires PredictionNameMatches(name, prefix, model, run, step, subject)
    ensures ParsePredictionName(name) ==
              Success(DecoderId(model, DecimalValue(run), DecimalValue(step), subject))
  {
    var tail := KeyText(model, run, step, subject);
    KeyTextAccepts(model, run, step, subject);
    var stem := prefix + "." + tail;
    var text := stem + PRED_SUFFIX;
    var body := BeforeFinalNewline(name);
    assert body == text by {
      if name == text + "\n" {
        assert (text + "\n")[..|text|] == text;
      }
    }
    assert EndsWith(body, PRED_SUFFIX);
    assert body[..|body| - |PRED_SUFFIX|] == stem;
    LastIndexOfBeforeTail(prefix, '.', tail);
    assert stem[|prefix| + 1..] == tail;
  }

  /** A name that parses matches the pattern, with the groups the parser returns. */
  lemma PredictionNameSound(name: string)
    requires ParsePredictionName(name).Success?
    ensures exists prefix, run, step ::
              && PredictionNameMatches(name, prefix, ParsePredictionName(name).value.model,
                                       run, step, ParsePredictionName(name).value.subject)
              && ParsePredictionName(name).value.run == DecimalValue(run)
              && ParsePredictionName(name).value.step == DecimalValue(step)
  {
    var id := ParsePredictionName(name).value;
    var body := BeforeFinalNewline(name);
    var stem := body[..|body| - |PRED_SUFFIX|];
    assert body == stem + PRED_SUFFIX;
    var dot := LastIndexOf(stem, '.').value;
    var prefix, tail := stem[..dot], stem[dot + 1..];
    assert stem == prefix + "." + tail;
    assert ParseKeyText(tail) == Success(id);
    KeyTextSound(tail);
    var run, step :| && IsDigits(run) && IsDigits(step)
                     && tail == KeyText(id.model, run, step, id.subject)
                     && id.run == DecimalValue(run) && id.step == DecimalValue(step);
    assert PredictionNameMatches(name, prefix, id.model, run, step, id.subject);
  }

  /** Only names the pattern matches are accepted; all others raise IndexError. */
  lemma PredictionNameExact(name: string)
    ensures ParsePredictionName(name).Success? <==>
              exists prefix, model, run, step, subject :: PredictionNameMatches(name, prefix, model, run, step, subject)
  {
    if ParsePredictionName(name).Success? {
      PredictionNameSound(name);
    }
    if exists prefix, model, run, step, subject :: PredictionNameMatches(name, prefix, model, run, step, subject) {
      var prefix, model, run, step, subject :| PredictionNameMatches(name, prefix, model, run, step, subject);
      PredictionNameAccepts(name, prefix, model, run, step, subject);
    }
  }

  /** A prediction file name `prefix.model-runRUN-STEP-subject.pred.npy`. */
  function FormatPredictionName(prefix: string, id: DecoderId): string {
    prefix + "." + id.model + "-run" + DecimalString(id.run) + "-" + DecimalString(id.step) + "-" + id.subject + PRED_SUFFIX
  }

  /** Whatever the prefix, the key of a formatted prediction file name is the one formatted. */
  lemma PredictionNameRoundTrip(prefix: string, id: DecoderId)
    requires IsWord(id.model) && IsWord(id.subject)
    ensures ParsePredictionName(FormatPredictionName(prefix, id)) == Success(id)
  {
    DecimalRoundTrip(id.run);
    DecimalRoundTrip(id.step);
    PredictionNameAccepts(FormatPredictionName(prefix, id), prefix, id.model,
                          DecimalString(id.run), DecimalString(id.step), id.subject);
  }
}
