/**
 * The stage builders that extend the `sentieon driver` prefix:
 * `cmd_variant_phaser`, `cmd_repeat_model`, `cmd_model_apply`,
 * `cmd_algo_dnascope`, and the stand-alone `cmd_dnascope_hp` fragment.
 */
module Stages {
  import opened Strings
  import opened Values
  import opened Driver
  import opened Words
  import opened RepeatModelText

  /* ---------------------------------------------------------------- */
  /* cmd_variant_phaser                                               */
  /* ---------------------------------------------------------------- */

  /** `kwargs.get('phase_max_depth', 1000)`: the default applies only to a missing key. */
  function MaxDepth(kw: Kwargs): (v: Value)
    ensures "phase_max_depth" !in kw ==> v == Int(1000)
    ensures "phase_max_depth" in kw ==> v == kw["phase_max_depth"]
  {
    if "phase_max_depth" in kw then kw["phase_max_depth"] else Int(1000)
  }

  /** The phaser flags that follow the driver prefix. */
  function PhaserTail(vcf: string, depth: string, phasedBed: string, phasedVcf: string, phasedExt: string): string {
    (" --algo VariantPhaser -v " + vcf + " ")
    + (("--max_depth " + depth + " ")
    + (("--out_bed " + phasedBed + " ")
    + PhaserOutput(phasedVcf, phasedExt)))
  }

  /** The output clause that closes the phaser command. */
  function PhaserOutput(phasedVcf: string, phasedExt: string): string {
    "--out_ext " + phasedExt + " " + phasedVcf + " "
  }

  /** `cmd_variant_phaser`: a driver without interval, then VariantPhaser. */
  function VariantPhaser(vcf: string, phasedBed: string, phasedVcf: string, phasedExt: string, kw: Kwargs): (r: Result<string>)
    ensures r.Success? <==> DriverCall(None, false, kw).Success? && !MaxDepth(kw).Handle?
    ensures DriverCall(None, false, kw).Failure? ==> r == DriverCall(None, false, kw)
    ensures r.Success? ==> DriverCall(None, false, kw).value <= r.value
  {
    var driver :- DriverCall(None, false, kw);
    var depth :- Render("phase_max_depth", MaxDepth(kw));
    Success(driver + PhaserTail(vcf, depth, phasedBed, phasedVcf, phasedExt))
  }

  /** The phaser command ends with the output clause. */
  lemma PhaserEndsWithOutput(vcf: string, phasedBed: string, phasedVcf: string, phasedExt: string, kw: Kwargs)
    requires VariantPhaser(vcf, phasedBed, phasedVcf, phasedExt, kw).Success?
    ensures EndsWith(VariantPhaser(vcf, phasedBed, phasedVcf, phasedExt, kw).value, PhaserOutput(phasedVcf, phasedExt))
  {
    var driver, depth := DriverCall(None, false, kw).value, Render("phase_max_depth", MaxDepth(kw)).value;
    var b, c, d := "--max_depth " + depth + " ", "--out_bed " + phasedBed + " ", PhaserOutput(phasedVcf, phasedExt);
    EndsWithConcat(c, d);
    EndsWithExtend(b, c + d, d);
    EndsWithExtend(" --algo VariantPhaser -v " + vcf + " ", b + (c + d), d);
    EndsWithExtend(driver, PhaserTail(vcf, depth, phasedBed, phasedVcf, phasedExt), d);
  }

  /** The default depth renders as `1000`. */
  lemma RenderThousand()
    ensures Render("phase_max_depth", Int(1000)) == Success("1000")
  {
    assert NatToString(1000) == "1000";
  }

  lemma PhaserTailHasDepth(driver: string, vcf: string, depth: string, phasedBed: string, phasedVcf: string, phasedExt: string)
    ensures Contains(driver + PhaserTail(vcf, depth, phasedBed, phasedVcf, phasedExt), "--max_depth " + depth + " ")
  {
    var a, t := " --algo VariantPhaser -v " + vcf + " ", "--max_depth " + depth + " ";
    var b := ("--out_bed " + phasedBed + " ") + PhaserOutput(phasedVcf, phasedExt);
    Assoc(a, t, b);
    ContainsConcat(a, t, b);
    ContainsExtend(PhaserTail(vcf, depth, phasedBed, phasedVcf, phasedExt), t, driver);
  }

  /** Without `phase_max_depth` in the bag the phaser is capped at depth 1000. */
  lemma PhaserDefaultDepth(vcf: string, phasedBed: string, phasedVcf: string, phasedExt: string, kw: Kwargs)
    requires "phase_max_depth" !in kw
    requires DriverCall(None, false, kw).Success?
    ensures VariantPhaser(vcf, phasedBed, phasedVcf, phasedExt, kw).Success?
    ensures Contains(VariantPhaser(vcf, phasedBed, phasedVcf, phasedExt, kw).value, "--max_depth 1000 ")
  {
    var driver := DriverCall(None, false, kw).value;
    RenderThousand();
    assert "--max_depth " + "1000" + " " == "--max_depth 1000 ";
    assert VariantPhaser(vcf, phasedBed, phasedVcf, phasedExt, kw).value
      == driver + PhaserTail(vcf, "1000", phasedBed, phasedVcf, phasedExt);
    PhaserTailHasDepth(driver, vcf, "1000", phasedBed, phasedVcf, phasedExt);
  }

  /** The rendered `phase_max_depth`, once it renders. */
  function DepthText(kw: Kwargs): string
    requires !MaxDepth(kw).Handle?
  {
    Render("phase_max_depth", MaxDepth(kw)).value
  }

  /** The words of the phaser flags, in the order of the source's five appends. */
  function PhaserArgv(vcf: string, depth: string, phasedBed: string, phasedVcf: string, phasedExt: string): seq<string> {
    ["--algo", "VariantPhaser", "-v", vcf, "--max_depth", depth, "--out_bed", phasedBed,
     "--out_ext", phasedExt, phasedVcf]
  }

  /** Two words, each followed by a blank. */
  lemma SpacedTwo(a: string, b: string)
    ensures Spaced([a, b]) == a + " " + b + " "
  {
    assert [a, b][1..] == [b];
    assert [b][1..] == [];
    assert Spaced([b]) == b + (" " + "");
    assert " " + "" == " ";
    assert Spaced([a, b]) == a + (" " + (b + " "));
  }

  /** The phaser flags are a blank followed by their words, each followed by a blank. */
  lemma PhaserTailSpaced(vcf: string, depth: string, phasedBed: string, phasedVcf: string, phasedExt: string)
    ensures PhaserTail(vcf, depth, phasedBed, phasedVcf, phasedExt)
      == " " + Spaced(PhaserArgv(vcf, depth, phasedBed, phasedVcf, phasedExt))
  {
    var lead, dep, bed := ["--algo", "VariantPhaser", "-v", vcf], ["--max_depth", depth], ["--out_bed", phasedBed];
    var out := ["--out_ext", phasedExt, phasedVcf];
    PhaserLeadSpaced(vcf);
    SpacedTwo("--max_depth", depth);
    SpacedTwo("--out_bed", phasedBed);
    PhaserOutputSpaced(phasedVcf, phasedExt);
    SpacedFourParts(lead, dep, bed, out);
    assert lead + dep + bed + out == PhaserArgv(vcf, depth, phasedBed, phasedVcf, phasedExt);
  }

  /** The opening of the phaser flags. */
  lemma PhaserLeadSpaced(vcf: string)
    ensures " --algo VariantPhaser -v " + vcf + " " == " " + Spaced(["--algo", "VariantPhaser", "-v", vcf])
  {
    SpacedTwo("--algo", "VariantPhaser");
    SpacedTwo("-v", vcf);
    SpacedAppend(["--algo", "VariantPhaser"], ["-v", vcf]);
    assert ["--algo", "VariantPhaser"] + ["-v", vcf] == ["--algo", "VariantPhaser", "-v", vcf];
    var a := "--algo" + " " + "VariantPhaser" + " ";
    assert a == "--algo VariantPhaser ";
    assert " --algo VariantPhaser -v " == " " + a + "-v" + " ";
  }

  /** The output clause that closes the phaser flags. */
  lemma PhaserOutputSpaced(phasedVcf: string, phasedExt: string)
    ensures PhaserOutput(phasedVcf, phasedExt) == Spaced(["--out_ext", phasedExt, phasedVcf])
  {
    SpacedTwo("--out_ext", phasedExt);
    assert Spaced([phasedVcf]) == phasedVcf + " " by {
      assert [phasedVcf][1..] == [];
    }
    SpacedAppend(["--out_ext", phasedExt], [phasedVcf]);
    assert ["--out_ext", phasedExt] + [phasedVcf] == ["--out_ext", phasedExt, phasedVcf];
  }

  /** Four spaced word lists in a row, nested to the right as the phaser flags are. */
  lemma SpacedFourParts(a: seq<string>, b: seq<string>, c: seq<string>, d: seq<string>)
    ensures Spaced(a + b + c + d) == Spaced(a) + (Spaced(b) + (Spaced(c) + Spaced(d)))
  {
    var cd := c + d;
    var bcd := b + cd;
    assert a + b + c + d == a + bcd;
    SpacedAppend(c, d);
    SpacedAppend(b, cd);
    SpacedAppend(a, bcd);
  }

  /**
   * After the driver prefix, a phaser command with blank-free arguments
   * splits into `--algo VariantPhaser -v VCF --max_depth D --out_bed BED
   * --out_ext EXT OUT` and the empty word after the closing blank; `D` is
   * the rendered `phase_max_depth`, `1000` only when the key is absent.
   */
  lemma PhaserWords(vcf: string, phasedBed: string, phasedVcf: string, phasedExt: string, kw: Kwargs)
    requires DriverCall(None, false, kw).Success?
    requires !MaxDepth(kw).Handle?
    requires Blankless(vcf) && Blankless(phasedBed) && Blankless(phasedVcf) && Blankless(phasedExt)
    requires Blankless(DepthText(kw))
    ensures VariantPhaser(vcf, phasedBed, phasedVcf, phasedExt, kw).Success?
    ensures var driver, cmd := DriverCall(None, false, kw).value, VariantPhaser(vcf, phasedBed, phasedVcf, phasedExt, kw).value;
      && driver <= cmd
      && BlankLed(cmd[|driver|..])
      && Split(cmd[|driver|..][1..], ' ')
         == PhaserArgv(vcf, DepthText(kw), phasedBed, phasedVcf, phasedExt) + [""]
  {
    var driver, depth := DriverCall(None, false, kw).value, DepthText(kw);
    var tail := PhaserTail(vcf, depth, phasedBed, phasedVcf, phasedExt);
    assert VariantPhaser(vcf, phasedBed, phasedVcf, phasedExt, kw).value == driver + tail;
    assert (driver + tail)[|driver|..] == tail;
    PhaserTailWords(vcf, depth, phasedBed, phasedVcf, phasedExt);
  }

  /** The phaser flags with blank-free arguments split into their words and a trailing empty word. */
  lemma PhaserTailWords(vcf: string, depth: string, phasedBed: string, phasedVcf: string, phasedExt: string)
    requires Blankless(vcf) && Blankless(depth) && Blankless(phasedBed) && Blankless(phasedVcf) && Blankless(phasedExt)
    ensures var tail := PhaserTail(vcf, depth, phasedBed, phasedVcf, phasedExt);
      && BlankLed(tail)
      && Split(tail[1..], ' ') == PhaserArgv(vcf, depth, phasedBed, phasedVcf, phasedExt) + [""]
  {
    var tail := PhaserTail(vcf, depth, phasedBed, phasedVcf, phasedExt);
    var argv := PhaserArgv(vcf, depth, phasedBed, phasedVcf, phasedExt);
    PhaserTailSpaced(vcf, depth, phasedBed, phasedVcf, phasedExt);
    assert tail[1..] == Spaced(argv) + "";
    SpacedWords(argv, "");
    SplitSingle("", ' ');
  }

  /** A stored `phase_max_depth`, even `None`, is the depth the phaser emits. */
  lemma PhaserStoredDepth(vcf: string, phasedBed: string, phasedVcf: string, phasedExt: string, kw: Kwargs)
    requires "phase_max_depth" in kw && !kw["phase_max_depth"].Handle?
    requires DriverCall(None, false, kw).Success?
    ensures VariantPhaser(vcf, phasedBed, phasedVcf, phasedExt, kw).Success?
    ensures Contains(VariantPhaser(vcf, phasedBed, phasedVcf, phasedExt, kw).value,
                     "--max_depth " + Render("phase_max_depth", kw["phase_max_depth"]).value + " ")
    ensures kw["phase_max_depth"] == NoneVal ==>
      Contains(VariantPhaser(vcf, phasedBed, phasedVcf, phasedExt, kw).value, "--max_depth None ")
  {
    var driver, depth := DriverCall(None, false, kw).value, DepthText(kw);
    assert VariantPhaser(vcf, phasedBed, phasedVcf, phasedExt, kw).value
      == driver + PhaserTail(vcf, depth, phasedBed, phasedVcf, phasedExt);
    PhaserTailHasDepth(driver, vcf, depth, phasedBed, phasedVcf, phasedExt);
    if kw["phase_max_depth"] == NoneVal {
      assert "--max_depth " + "None" + " " == "--max_depth None ";
    }
  }

  /* ---------------------------------------------------------------- */
  /* cmd_repeat_model                                                 */
  /* ---------------------------------------------------------------- */

  /** The model file RepeatModel writes under `tmp_base`. */
  function RepeatModelPath(tmpBase: string): string {
    tmpBase + "/out_repeat.model"
  }

  /**
   * The text `cmd_repeat_model` appends to the driver prefix: the phased
   * read filter, the fixed flags, and the model path.
   */
  function RepeatModelTail(phasedExt: string, model: string): (t: string)
    ensures EndsWith(t, RepeatModelFlags + model)
  {
    var filter := PhasedFilterClause(phasedExt);
    Assoc(filter, RepeatModelFlags, model);
    EndsWithConcat(filter, RepeatModelFlags + model);
    filter + RepeatModelFlags + model
  }

  /**
   * `cmd_repeat_model`: the command and the keyword bag as the caller sees
   * it afterwards. `phased_bed` is stored before the driver runs, so it is
   * set even when the call fails; `repeat_model` only once the driver and
   * `tmp_base` succeeded.
   */
  function RepeatModel(phasedBed: string, phasedExt: string, kw: Kwargs): (r: (Result<string>, Kwargs))
    ensures r.1.Keys == kw.Keys + {"phased_bed"} + (if r.0.Success? then {"repeat_model"} else {})
    ensures r.1["phased_bed"] == Str(phasedBed)
    ensures forall k :: k in kw && k != "phased_bed" && k != "repeat_model" ==> r.1[k] == kw[k]
    ensures r.0.Success? <==>
      && DriverCall(Some("phased_bed"), false, kw["phased_bed" := Str(phasedBed)]).Success?
      && "tmp_base" in kw && !kw["tmp_base"].Handle?
    ensures r.0.Success? ==> r.1["repeat_model"] == Str(RepeatModelPath(Render("tmp_base", kw["tmp_base"]).value))
    ensures r.0.Failure? ==> r.1 == kw["phased_bed" := Str(phasedBed)]
  {
    var kw1 := kw["phased_bed" := Str(phasedBed)];
    assert kw1.Keys == kw.Keys + {"phased_bed"};
    match DriverCall(Some("phased_bed"), false, kw1)
    case Failure(e) => (Failure(e), kw1)
    case Success(driver) =>
      assert ("tmp_base" in kw1 && !kw1["tmp_base"].Handle?) <==> ("tmp_base" in kw && !kw["tmp_base"].Handle?);
      RecordModel(driver, phasedExt, kw1)
  }

  /**
   * The part of `cmd_repeat_model` after the driver prefix: record the
   * model path under `tmp_base`, then append the tail.
   */
  function RecordModel(driver: string, phasedExt: string, kw: Kwargs): (r: (Result<string>, Kwargs))
    ensures r.0.Success? <==> "tmp_base" in kw && !kw["tmp_base"].Handle?
    ensures r.0.Failure? ==> r.1 == kw
    ensures r.0.Success? ==> var model := RepeatModelPath(Render("tmp_base", kw["tmp_base"]).value);
      r == (Success(driver + RepeatModelTail(phasedExt, model)), kw["repeat_model" := Str(model)])
  {
    match TextAt(kw, "tmp_base")
    case Failure(e) => (Failure(e), kw)
    case Success(tmpBase) =>
      var model := RepeatModelPath(tmpBase);
      (Success(driver + RepeatModelTail(phasedExt, model)), kw["repeat_model" := Str(model)])
  }

  /** The bag the driver sees inside `cmd_repeat_model`. */
  function WithPhasedBed(phasedBed: string, kw: Kwargs): Kwargs {
    kw["phased_bed" := Str(phasedBed)]
  }

  /**
   * After the driver prefix, the RepeatModel text with a blank-free
   * extension and model path splits into the phased read filter, the fixed
   * flags, and the model path, in that order.
   */
  lemma RepeatModelTailWords(phasedExt: string, model: string)
    requires Blankless(phasedExt) && Blankless(model)
    ensures var t := RepeatModelTail(phasedExt, model);
      && BlankLed(t)
      && Split(t[1..], ' ') == ["--read_filter", PhasedFilterArg(phasedExt)] + RepeatModelArgv + [model]
  {
    var rest := RepeatModelFlags + model;
    Assoc(PhasedFilterClause(phasedExt), RepeatModelFlags, model);
    FilterClauseWords(phasedExt, rest);
    FlagsWords(model);
  }

  /** A successful RepeatModel command is the driver prefix followed by the RepeatModel flags. */
  lemma RepeatModelParts(phasedBed: string, phasedExt: string, kw: Kwargs)
    requires RepeatModel(phasedBed, phasedExt, kw).0.Success?
    ensures DriverReady(false, WithPhasedBed(phasedBed, kw))
    ensures RepeatModel(phasedBed, phasedExt, kw).0.value
      == SentieonDriver(Some("phased_bed"), false, WithPhasedBed(phasedBed, kw)).value
         + RepeatModelTail(phasedExt, RepeatModelPath(Render("tmp_base", kw["tmp_base"]).value))
  {
  }

  /** The repeat model is always estimated on the phased regions: the interval follows the head. */
  lemma RepeatModelOnPhasedRegions(phasedBed: string, phasedExt: string, kw: Kwargs)
    requires RepeatModel(phasedBed, phasedExt, kw).0.Success?
    ensures DriverReady(false, WithPhasedBed(phasedBed, kw))
    ensures HeadOf(WithPhasedBed(phasedBed, kw)) + " --interval " + phasedBed
      <= RepeatModel(phasedBed, phasedExt, kw).0.value
  {
    var kw1 := WithPhasedBed(phasedBed, kw);
    RepeatModelParts(phasedBed, phasedExt, kw);
    var tail := RepeatModelTail(phasedExt, RepeatModelPath(Render("tmp_base", kw["tmp_base"]).value));
    assert HasInterval(Some("phased_bed"), kw1);
    DriverStartsWithInterval(Some("phased_bed"), false, kw1);
    PrefixExtend(HeadOf(kw1) + " --interval " + phasedBed, SentieonDriver(Some("phased_bed"), false, kw1).value, tail);
  }

  /** A RepeatModel command ends with the fixed flags and the model path it records. */
  lemma RepeatModelEndsWithFlags(phasedBed: string, phasedExt: string, kw: Kwargs)
    requires RepeatModel(phasedBed, phasedExt, kw).0.Success?
    ensures EndsWith(RepeatModel(phasedBed, phasedExt, kw).0.value,
                     RepeatModelFlags + RepeatModelPath(Render("tmp_base", kw["tmp_base"]).value))
  {
    RepeatModelParts(phasedBed, phasedExt, kw);
    var driver := SentieonDriver(Some("phased_bed"), false, WithPhasedBed(phasedBed, kw)).value;
    var model := RepeatModelPath(Render("tmp_base", kw["tmp_base"]).value);
    EndsWithExtend(driver, RepeatModelTail(phasedExt, model), RepeatModelFlags + model);
  }

  /* ---------------------------------------------------------------- */
  /* cmd_model_apply                                                  */
  /* ---------------------------------------------------------------- */

  /** The DNAModelApply flags, without any separator in front. */
  function ModelApplyTail(model: string, inpVcf: string, outVcf: string): string {
    "--algo DNAModelApply --model " + model + " -v " + inpVcf + " " + outVcf
  }

  /**
   * `cmd_model_apply` as written: the flags are glued onto the driver
   * prefix, which relies on the prefix ending in a blank.
   */
  function ModelApplyAsWritten(model: string, inpVcf: string, outVcf: string, kw: Kwargs): (r: Result<string>)
    ensures r.Success? <==> DriverCall(None, true, kw).Success?
    ensures r.Success? ==> DriverCall(None, true, kw).value <= r.value
    ensures r.Success? ==> EndsWith(r.value, ModelApplyTail(model, inpVcf, outVcf))
    ensures r.Success? ==> |r.value| == |DriverCall(None, true, kw).value| + |ModelApplyTail(model, inpVcf, outVcf)|
  {
    var driver :- DriverCall(None, true, kw);
    EndsWithConcat(driver, ModelApplyTail(model, inpVcf, outVcf));
    Success(driver + ModelApplyTail(model, inpVcf, outVcf))
  }

  /**
   * `cmd_model_apply` with the separator the flags need: a blank is added
   * when the driver prefix does not already end in one.
   */
  function ModelApply(model: string, inpVcf: string, outVcf: string, kw: Kwargs): (r: Result<string>)
    ensures r.Success? <==> DriverCall(None, true, kw).Success?
    ensures r.Success? ==> DriverCall(None, true, kw).value <= r.value
    ensures r.Success? ==> EndsWith(r.value, ModelApplyTail(model, inpVcf, outVcf))
    ensures r.Success? ==> var n := |r.value| - |ModelApplyTail(model, inpVcf, outVcf)|;
      n > 0 && r.value[n - 1] == ' '
    ensures r.Success? ==>
      |r.value| <= |DriverCall(None, true, kw).value| + 1 + |ModelApplyTail(model, inpVcf, outVcf)|
    ensures r.Success? && EndsWith(DriverCall(None, true, kw).value, " ") ==>
      |r.value| == |DriverCall(None, true, kw).value| + |ModelApplyTail(model, inpVcf, outVcf)|
  {
    var driver :- DriverCall(None, true, kw);
    var sep := if EndsWith(driver, " ") then "" else " ";
    var cmd := driver + sep + ModelApplyTail(model, inpVcf, outVcf);
    EndsWithConcat(driver + sep, ModelApplyTail(model, inpVcf, outVcf));
    assert cmd[|driver + sep| - 1] == ' ';
    Success(cmd)
  }

  /** Without a read filter the driver prefix ends in a blank, and the two agree. */
  lemma ModelApplyAgrees(model: string, inpVcf: string, outVcf: string, kw: Kwargs)
    requires !HasReadFilter(kw)
    ensures ModelApply(model, inpVcf, outVcf, kw) == ModelApplyAsWritten(model, inpVcf, outVcf, kw)
  {
    if DriverCall(None, true, kw).Success? {
      var driver := DriverCall(None, true, kw).value;
      assert driver == HeadOf(kw) by {
        DriverEndsWithInterval(None, kw);
      }
      assert EndsWith(driver, " ");
      assert driver + "" == driver;
    }
  }

  /**
   * With a read filter in the bag the driver prefix ends in the filter's
   * text, and the code as written glues `--algo` onto it: the character
   * before the flags is not a blank, where ModelApply puts one.
   */
  lemma ModelApplyGluesFilter(model: string, inpVcf: string, outVcf: string, kw: Kwargs)
    requires "bed_key" !in kw && "skip_sample_input" !in kw
    requires DriverReady(true, kw) && HasReadFilter(kw)
    requires var f := Render("read-filter", kw["read-filter"]).value; f != [] && f[|f| - 1] != ' '
    ensures ModelApplyAsWritten(model, inpVcf, outVcf, kw).Success?
    ensures var w, t := ModelApplyAsWritten(model, inpVcf, outVcf, kw).value, ModelApplyTail(model, inpVcf, outVcf);
      |w| > |t| && w[|w| - |t| - 1] != ' '
  {
    var f := Render("read-filter", kw["read-filter"]).value;
    var c := " --read_filter " + f;
    DriverEndsWithReadFilter(None, true, kw);
    LastBeforeTail(SentieonDriver(None, true, kw).value, c, ModelApplyTail(model, inpVcf, outVcf));
    assert c[|c| - 1] == f[|f| - 1];
  }

  /** In that case the corrected builder and the code as written disagree. */
  lemma ModelApplyDiffers(model: string, inpVcf: string, outVcf: string, kw: Kwargs)
    requires "bed_key" !in kw && "skip_sample_input" !in kw
    requires DriverReady(true, kw) && HasReadFilter(kw)
    requires var f := Render("read-filter", kw["read-filter"]).value; f != [] && f[|f| - 1] != ' '
    ensures ModelApply(model, inpVcf, outVcf, kw) != ModelApplyAsWritten(model, inpVcf, outVcf, kw)
  {
    ModelApplyGluesFilter(model, inpVcf, outVcf, kw);
  }

  /** The DNAModelApply flags, word by word. */
  function ModelApplyArgv(model: string, inpVcf: string, outVcf: string): seq<string> {
    ["--algo", "DNAModelApply", "--model", model, "-v", inpVcf, outVcf]
  }

  /** With blank-free paths, the DNAModelApply flags split into their seven words. */
  lemma ModelApplyTailWords(model: string, inpVcf: string, outVcf: string)
    requires Blankless(model) && Blankless(inpVcf) && Blankless(outVcf)
    ensures Split(ModelApplyTail(model, inpVcf, outVcf), ' ') == ModelApplyArgv(model, inpVcf, outVcf)
  {
    ModelApplyLiterals();
    SixShape("--algo DNAModelApply --model ", " -v ", "--algo", "DNAModelApply", "--model", model, "-v", inpVcf, outVcf);
    SixThen("--algo", "DNAModelApply", "--model", model, "-v", inpVcf, outVcf);
    SplitSingle(outVcf, ' ');
  }

  /** The fixed pieces of the DNAModelApply flags, word by word. */
  lemma ModelApplyLiterals()
    ensures "--algo DNAModelApply --model " == "--algo" + " " + "DNAModelApply" + " " + "--model" + " "
    ensures " -v " == " " + "-v" + " "
  {
  }

  /** The fixed pieces of the driver head, word by word. */
  lemma HeadLiterals()
    ensures "sentieon driver -t " == "sentieon" + " " + "driver" + " " + "-t" + " "
    ensures " -r " == " " + "-r" + " "
  {
  }

  /**
   * Three words and a blank, a field, a blank-flanked flag, a second field
   * and a blank, in front of the rest: the shape shared by the driver head
   * and the DNAModelApply flags.
   */
  lemma SixShape(lead: string, flag: string, a: string, b: string, c: string, x: string, d: string, y: string, rest: string)
    requires lead == a + " " + b + " " + c + " " && flag == " " + d + " "
    ensures lead + x + flag + y + " " + rest == a + " " + b + " " + c + " " + x + " " + d + " " + y + " " + rest
  {
  }

  /** Six blank-free words, each followed by a blank, in front of the rest. */
  lemma SixThen(a: string, b: string, c: string, d: string, e: string, f: string, rest: string)
    requires Blankless(a) && Blankless(b) && Blankless(c) && Blankless(d) && Blankless(e) && Blankless(f)
    ensures Split(a + " " + b + " " + c + " " + d + " " + e + " " + f + " " + rest, ' ')
      == [a, b, c, d, e, f] + Split(rest, ' ')
  {
    var x := d + " " + e + " " + f + " " + rest;
    assert a + " " + b + " " + c + " " + d + " " + e + " " + f + " " + rest == a + " " + b + " " + c + " " + x;
    ThreeWordsThen(d, e, f, rest);
    ThreeWordsThen(a, b, c, x);
  }

  /** The driver head with blank-free fields splits into its six words in front of the rest. */
  lemma HeadThen(cores: string, reference: string, rest: string)
    requires Blankless(cores) && Blankless(reference)
    ensures Split(Head(cores, reference) + rest, ' ')
      == ["sentieon", "driver", "-t", cores, "-r", reference] + Split(rest, ' ')
  {
    HeadLiterals();
    SixShape("sentieon driver -t ", " -r ", "sentieon", "driver", "-t", cores, "-r", reference, rest);
    SixThen("sentieon", "driver", "-t", cores, "-r", reference, rest);
  }

  /**
   * Without an interval, a sample or a read filter, and with blank-free
   * fields, the model-apply command is the docstring's
   * `sentieon driver -t T -r R --algo DNAModelApply --model M -v I O`,
   * word for word, in both the corrected builder and the code as written.
   */
  lemma ModelApplyWords(model: string, inpVcf: string, outVcf: string, kw: Kwargs)
    requires "bed_key" !in kw && "skip_sample_input" !in kw
    requires DriverReady(true, kw) && !HasReadFilter(kw)
    requires Blankless(Render("cores", kw["cores"]).value) && Blankless(PathOf(kw["reference"]))
    requires Blankless(model) && Blankless(inpVcf) && Blankless(outVcf)
    ensures ModelApply(model, inpVcf, outVcf, kw).Success?
    ensures ModelApply(model, inpVcf, outVcf, kw) == ModelApplyAsWritten(model, inpVcf, outVcf, kw)
    ensures Split(ModelApply(model, inpVcf, outVcf, kw).value, ' ')
      == ["sentieon", "driver", "-t", Render("cores", kw["cores"]).value, "-r", PathOf(kw["reference"]),
          "--algo", "DNAModelApply", "--model", model, "-v", inpVcf, outVcf]
  {
    var tail := ModelApplyTail(model, inpVcf, outVcf);
    ModelApplyAgrees(model, inpVcf, outVcf, kw);
    DriverEndsWithInterval(None, kw);
    assert ModelApplyAsWritten(model, inpVcf, outVcf, kw).value == HeadOf(kw) + tail;
    ModelApplyTailWords(model, inpVcf, outVcf);
    HeadThen(Render("cores", kw["cores"]).value, PathOf(kw["reference"]), tail);
  }

  /** In `s + t`, the character right before `t` is the last one of any suffix of `s`. */
  lemma LastBeforeTail(s: string, c: string, t: string)
    requires c != [] && EndsWith(s, c)
    ensures |s + t| > |t| && (s + t)[|s + t| - |t| - 1] == c[|c| - 1]
  {
    assert (s + t)[|s| - 1] == s[|s| - 1];
  }

  /* ---------------------------------------------------------------- */
  /* cmd_algo_dnascope                                                */
  /* ---------------------------------------------------------------- */

  /** `if gvcf:` for an optional string. */
  predicate GvcfRequested(gvcf: Option<string>) {
    gvcf.Some? && gvcf.value != ""
  }

  /** The extra DNAscope pass that emits the gVCF. */
  function GvcfClause(modelBundle: string, gvcf: string): string {
    " --algo DNAscope --model " + modelBundle + "/gvcf_model" + " --emit_mode gvcf " + gvcf + " "
  }

  /** The gVCF clause, or nothing; it needs `model_bundle` only when requested. */
  function GvcfText(kw: Kwargs, gvcf: Option<string>): (r: Result<string>)
    ensures !GvcfRequested(gvcf) ==> r == Success("")
    ensures GvcfRequested(gvcf) ==> r.Success? == ("model_bundle" in kw && !kw["model_bundle"].Handle?)
    ensures GvcfRequested(gvcf) && r.Success?
      ==> r.value == GvcfClause(Render("model_bundle", kw["model_bundle"]).value, gvcf.value)
  {
    if GvcfRequested(gvcf) then
      var bundle :- TextAt(kw, "model_bundle");
      Success(GvcfClause(bundle, gvcf.value))
    else Success("")
  }

  /** `kwargs.get("dbsnp")` is truthy. */
  predicate DbsnpRequested(kw: Kwargs) {
    Truthy(Get(kw, "dbsnp"))
  }

  /** The dbSNP clause as written: `kwargs['dbsnp'].name`, which only a handle has. */
  function DbsnpTextAsWritten(kw: Kwargs): (r: Result<string>)
    ensures !DbsnpRequested(kw) ==> r == Success("")
    ensures DbsnpRequested(kw) ==> (r.Success? <==> kw["dbsnp"].Handle?)
    ensures DbsnpRequested(kw) && r.Failure? ==> r.error == AttributeError("dbsnp")
    ensures DbsnpRequested(kw) && r.Success? ==> r.value == " --dbsnp " + kw["dbsnp"].name + " "
  {
    if DbsnpRequested(kw) then
      if kw["dbsnp"].Handle? then Success(" --dbsnp " + kw["dbsnp"].name + " ")
      else Failure(AttributeError("dbsnp"))
    else Success("")
  }

  /**
   * The dbSNP clause resolved through `name()`, as `cmd_dnascope_hp` does:
   * the haplotype pass's clause behind one more blank.
   */
  function DbsnpClause(kw: Kwargs): (c: string)
    ensures !DbsnpRequested(kw) ==> c == ""
    ensures DbsnpRequested(kw) ==> c == " --dbsnp " + PathOf(kw["dbsnp"]) + " "
  {
    if DbsnpRequested(kw) then
      var p := PathOf(kw["dbsnp"]);
      assert " " + ("--dbsnp " + p + " ") == " --dbsnp " + p + " ";
      " " + HpDbsnpClause(kw)
    else ""
  }

  /** The model and output that close every DNAscope command. */
  function DnascopeEnding(model: string, outVcf: string): string {
    " --model " + model + " " + outVcf
  }

  /** The main DNAscope pass. */
  function DnascopeMain(dbsnpText: string, model: string, outVcf: string): string {
    "--algo DNAscope " + dbsnpText + DnascopeEnding(model, outVcf)
  }

  /** Everything after the driver prefix. */
  function DnascopeTail(gvcfText: string, dbsnpText: string, model: string, outVcf: string): string {
    " " + gvcfText + DnascopeMain(dbsnpText, model, outVcf)
  }

  /** `cmd_algo_dnascope` as written, failing on a plain-string dbSNP path. */
  function AlgoDnascopeAsWritten(model: string, outVcf: string, kw: Kwargs, bedKey: Option<string>, gvcf: Option<string>): (r: Result<string>)
    ensures r.Success? <==>
      GvcfText(kw, gvcf).Success? && DbsnpTextAsWritten(kw).Success? && DriverPositional(bedKey, kw).Success?
    ensures GvcfText(kw, gvcf).Failure? ==> r == GvcfText(kw, gvcf)
    ensures GvcfText(kw, gvcf).Success? && DbsnpTextAsWritten(kw).Failure?
      ==> r == Failure(AttributeError("dbsnp"))
    ensures GvcfText(kw, gvcf).Success? && DbsnpTextAsWritten(kw).Success? && DriverPositional(bedKey, kw).Failure?
      ==> r == DriverPositional(bedKey, kw)
    ensures r.Success? ==> DriverPositional(bedKey, kw).value <= r.value
  {
    var gvcfText :- GvcfText(kw, gvcf);
    var dbsnpText :- DbsnpTextAsWritten(kw);
    var driver :- DriverPositional(bedKey, kw);
    Success(driver + DnascopeTail(gvcfText, dbsnpText, model, outVcf))
  }

  /**
   * `cmd_algo_dnascope` with the dbSNP path resolved through `name()`:
   * the gVCF pass (when requested), the main DNAscope pass with its
   * optional dbSNP, the model and the output VCF, after a driver prefix
   * that reads the sample input.
   */
  function AlgoDnascope(model: string, outVcf: string, kw: Kwargs, bedKey: Option<string>, gvcf: Option<string>): (r: Result<string>)
    ensures r.Success? <==> GvcfText(kw, gvcf).Success? && DriverPositional(bedKey, kw).Success?
    ensures GvcfText(kw, gvcf).Failure? ==> r == GvcfText(kw, gvcf)
    ensures GvcfText(kw, gvcf).Success? && DriverPositional(bedKey, kw).Failure? ==> r == DriverPositional(bedKey, kw)
    ensures r.Success? ==> DriverPositional(bedKey, kw).value <= r.value
  {
    if GvcfText(kw, gvcf).Failure? then GvcfText(kw, gvcf)
    else if DriverPositional(bedKey, kw).Failure? then DriverPositional(bedKey, kw)
    else Success(DriverPositional(bedKey, kw).value + DnascopeTail(GvcfText(kw, gvcf).value, DbsnpClause(kw), model, outVcf))
  }

  /** A DNAscope command ends with the model and the output VCF. */
  lemma DnascopeEndsWithOutput(model: string, outVcf: string, kw: Kwargs, bedKey: Option<string>, gvcf: Option<string>)
    requires AlgoDnascope(model, outVcf, kw, bedKey, gvcf).Success?
    ensures EndsWith(AlgoDnascope(model, outVcf, kw, bedKey, gvcf).value, DnascopeEnding(model, outVcf))
  {
    var driver, g, d := DriverPositional(bedKey, kw).value, GvcfText(kw, gvcf).value, DbsnpClause(kw);
    var e := DnascopeEnding(model, outVcf);
    EndsWithConcat("--algo DNAscope " + d, e);
    EndsWithExtend(" " + g, DnascopeMain(d, model, outVcf), e);
    assert " " + g + DnascopeMain(d, model, outVcf) == DnascopeTail(g, d, model, outVcf);
    EndsWithExtend(driver, DnascopeTail(g, d, model, outVcf), e);
  }

  /**
   * The text of a successful DNAscope command, as the f-string at the end
   * of `cmd_algo_dnascope` lays it out: the driver, a blank, the gVCF pass
   * (empty when `gvcf` is falsy), the main pass with its dbSNP clause, the
   * model and the output.
   */
  lemma DnascopeText(model: string, outVcf: string, kw: Kwargs, bedKey: Option<string>, gvcf: Option<string>)
    requires AlgoDnascope(model, outVcf, kw, bedKey, gvcf).Success?
    ensures AlgoDnascope(model, outVcf, kw, bedKey, gvcf).value
      == DriverPositional(bedKey, kw).value + " " + GvcfText(kw, gvcf).value
         + "--algo DNAscope " + DbsnpClause(kw) + " --model " + model + " " + outVcf
    ensures !GvcfRequested(gvcf) ==>
      AlgoDnascope(model, outVcf, kw, bedKey, gvcf).value
      == DriverPositional(bedKey, kw).value + " --algo DNAscope " + DbsnpClause(kw) + " --model " + model + " " + outVcf
  {
    var driver, g, d := DriverPositional(bedKey, kw).value, GvcfText(kw, gvcf).value, DbsnpClause(kw);
    DnascopeRegroup(driver, g, d, model, outVcf);
  }

  /** The same text for the code as written, with its own dbSNP clause. */
  lemma DnascopeAsWrittenText(model: string, outVcf: string, kw: Kwargs, bedKey: Option<string>, gvcf: Option<string>)
    requires AlgoDnascopeAsWritten(model, outVcf, kw, bedKey, gvcf).Success?
    ensures AlgoDnascopeAsWritten(model, outVcf, kw, bedKey, gvcf).value
      == DriverPositional(bedKey, kw).value + " " + GvcfText(kw, gvcf).value
         + "--algo DNAscope " + DbsnpTextAsWritten(kw).value + " --model " + model + " " + outVcf
  {
    var driver, g, d := DriverPositional(bedKey, kw).value, GvcfText(kw, gvcf).value, DbsnpTextAsWritten(kw).value;
    DnascopeRegroup(driver, g, d, model, outVcf);
  }

  /** Re-associates the DNAscope tail behind the driver. */
  lemma DnascopeRegroup(driver: string, g: string, d: string, model: string, outVcf: string)
    ensures driver + DnascopeTail(g, d, model, outVcf)
      == driver + " " + g + "--algo DNAscope " + d + " --model " + model + " " + outVcf
    ensures driver + DnascopeTail("", d, model, outVcf)
      == driver + " --algo DNAscope " + d + " --model " + model + " " + outVcf
  {
  }

  /** A falsy `gvcf` leaves no trace in the command. */
  lemma GvcfOmitted(model: string, outVcf: string, kw: Kwargs, bedKey: Option<string>, gvcf: Option<string>)
    requires !GvcfRequested(gvcf)
    ensures AlgoDnascope(model, outVcf, kw, bedKey, gvcf) == AlgoDnascope(model, outVcf, kw, bedKey, None)
  {
  }

  /** A requested gVCF pass is inserted right before the main DNAscope pass. */
  lemma GvcfBeforeMainPass(model: string, outVcf: string, kw: Kwargs, bedKey: Option<string>, gvcf: string)
    requires gvcf != ""
    requires AlgoDnascope(model, outVcf, kw, bedKey, Some(gvcf)).Success?
    ensures AlgoDnascope(model, outVcf, kw, bedKey, None).Success?
    ensures var driver, main := DriverPositional(bedKey, kw).value, DnascopeMain(DbsnpClause(kw), model, outVcf);
      && AlgoDnascope(model, outVcf, kw, bedKey, None).value == driver + " " + main
      && AlgoDnascope(model, outVcf, kw, bedKey, Some(gvcf)).value
         == driver + " " + GvcfClause(Render("model_bundle", kw["model_bundle"]).value, gvcf) + main
  {
    var driver, d := DriverPositional(bedKey, kw).value, DbsnpClause(kw);
    var g := GvcfClause(Render("model_bundle", kw["model_bundle"]).value, gvcf);
    var main := DnascopeMain(d, model, outVcf);
    assert AlgoDnascope(model, outVcf, kw, bedKey, None).value == driver + DnascopeTail("", d, model, outVcf);
    TailRegroup(driver, "", main);
    assert GvcfText(kw, Some(gvcf)).value == g;
    assert AlgoDnascope(model, outVcf, kw, bedKey, Some(gvcf)).value == driver + DnascopeTail(g, d, model, outVcf);
    TailRegroup(driver, g, main);
  }

  /** Regrouping the tail after the driver prefix. */
  lemma TailRegroup(driver: string, g: string, main: string)
    ensures driver + (" " + g + main) == driver + " " + g + main
    ensures driver + (" " + "" + main) == driver + " " + main
  {
  }

  /** Unless `skip_sample_input` comes in through the bag, the prefix reads the sample input. */
  lemma DnascopeReadsSample(model: string, outVcf: string, kw: Kwargs, bedKey: Option<string>, gvcf: Option<string>)
    requires "skip_sample_input" !in kw
    requires AlgoDnascope(model, outVcf, kw, bedKey, gvcf).Success?
    ensures DriverReady(false, kw)
    ensures SentieonDriver(bedKey, false, kw).value <= AlgoDnascope(model, outVcf, kw, bedKey, gvcf).value
  {
  }

  /** With no dbSNP, or a dbSNP handle, the corrected builder agrees with the code as written. */
  lemma DnascopeAgreesOnHandles(model: string, outVcf: string, kw: Kwargs, bedKey: Option<string>, gvcf: Option<string>)
    requires !DbsnpRequested(kw) || kw["dbsnp"].Handle?
    ensures AlgoDnascopeAsWritten(model, outVcf, kw, bedKey, gvcf) == AlgoDnascope(model, outVcf, kw, bedKey, gvcf)
  {
  }

  /** Any clause handed to the DNAscope tail appears in the command built on it. */
  lemma TailContainsClause(driver: string, g: string, clause: string, model: string, outVcf: string)
    ensures Contains(driver + DnascopeTail(g, clause, model, outVcf), clause)
  {
    ContainsConcat("--algo DNAscope ", clause, DnascopeEnding(model, outVcf));
    ContainsExtend(DnascopeMain(clause, model, outVcf), clause, []);
    assert DnascopeMain(clause, model, outVcf) + [] == DnascopeMain(clause, model, outVcf);
    ContainsExtend(DnascopeMain(clause, model, outVcf), clause, " " + g);
    ContainsExtend(DnascopeTail(g, clause, model, outVcf), clause, driver);
  }

  /**
   * A truthy `dbsnp` puts ` --dbsnp PATH ` into a successful DNAscope
   * command, where `PATH` is the value resolved through `name()`.
   */
  lemma DnascopeHasDbsnp(model: string, outVcf: string, kw: Kwargs, bedKey: Option<string>, gvcf: Option<string>)
    requires AlgoDnascope(model, outVcf, kw, bedKey, gvcf).Success?
    requires DbsnpRequested(kw)
    ensures Contains(AlgoDnascope(model, outVcf, kw, bedKey, gvcf).value, " --dbsnp " + PathOf(kw["dbsnp"]) + " ")
  {
    var driver, g := DriverPositional(bedKey, kw).value, GvcfText(kw, gvcf).value;
    TailContainsClause(driver, g, DbsnpClause(kw), model, outVcf);
  }

  /** A plain-string dbSNP path makes the code as written raise `AttributeError`. */
  lemma DnascopeRejectsPlainDbsnp(model: string, outVcf: string, kw: Kwargs, bedKey: Option<string>, gvcf: Option<string>)
    requires "dbsnp" in kw && kw["dbsnp"].Str? && kw["dbsnp"].s != ""
    requires GvcfText(kw, gvcf).Success?
    ensures AlgoDnascopeAsWritten(model, outVcf, kw, bedKey, gvcf) == Failure(AttributeError("dbsnp"))
    ensures DriverPositional(bedKey, kw).Success? ==>
      Contains(AlgoDnascope(model, outVcf, kw, bedKey, gvcf).value, " --dbsnp " + kw["dbsnp"].s + " ")
  {
    if DriverPositional(bedKey, kw).Success? {
      DnascopeHasDbsnp(model, outVcf, kw, bedKey, gvcf);
    }
  }

  /* ---------------------------------------------------------------- */
  /* cmd_dnascope_hp                                                  */
  /* ---------------------------------------------------------------- */

  /** The dbSNP clause of the haplotype pass: same rule as DNAscope, no leading blank. */
  function HpDbsnpClause(kw: Kwargs): (c: string)
    ensures !DbsnpRequested(kw) ==> c == ""
    ensures DbsnpRequested(kw) ==> c == "--dbsnp " + PathOf(kw["dbsnp"]) + " "
  {
    if DbsnpRequested(kw) then "--dbsnp " + PathOf(kw["dbsnp"]) + " " else ""
  }

  /** The fixed ending of the haplotype pass. */
  function HpEnding(repeatModel: string, hpVcf: string): string {
    "--pcr_indel_model " + repeatModel + " --min_repeat_count 6 " + hpVcf
  }

  /**
   * `cmd_dnascope_hp`: a fragment appended to an existing driver command,
   * never a command of its own.
   */
  function DnascopeHp(model: Option<string>, repeatModel: string, hpVcf: string, kw: Kwargs): (r: string)
    ensures "--algo DNAscopeHP " <= r
    ensures !("sentieon " <= r)
    ensures EndsWith(r, HpEnding(repeatModel, hpVcf))
  {
    var modelText := if model.Some? then "--model " + model.value + " " else "";
    var r := "--algo DNAscopeHP " + HpDbsnpClause(kw) + modelText + HpEnding(repeatModel, hpVcf);
    assert r[0] == '-';
    EndsWithConcat("--algo DNAscopeHP " + HpDbsnpClause(kw) + modelText, HpEnding(repeatModel, hpVcf));
    r
  }

  /** The `--model` clause is there exactly when a model is given, between dbSNP and the ending. */
  lemma HpModelClause(m: string, repeatModel: string, hpVcf: string, kw: Kwargs)
    ensures var lead := "--algo DNAscopeHP " + HpDbsnpClause(kw);
      && DnascopeHp(None, repeatModel, hpVcf, kw) == lead + HpEnding(repeatModel, hpVcf)
      && DnascopeHp(Some(m), repeatModel, hpVcf, kw) == lead + "--model " + m + " " + HpEnding(repeatModel, hpVcf)
  {
    var lead := "--algo DNAscopeHP " + HpDbsnpClause(kw);
    assert lead + "" + HpEnding(repeatModel, hpVcf) == lead + HpEnding(repeatModel, hpVcf);
    assert lead + ("--model " + m + " ") + HpEnding(repeatModel, hpVcf) == lead + "--model " + m + " " + HpEnding(repeatModel, hpVcf);
  }
}
