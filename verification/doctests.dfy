/**
 * The examples in the docstrings of `cmd_sentieon_driver`,
 * `cmd_pyexec_vcf_mod_haploid_patch` and `cmd_dnascope_hp`, each proved
 * about the model for the keyword bag the example builds.
 */
module Doctests {
  import opened Strings
  import opened Values
  import opened Words
  import opened Driver
  import Pyexec
  import Stages

  /* ---------------------------------------------------------------- */
  /* cmd_sentieon_driver                                              */
  /* ---------------------------------------------------------------- */

  /** The keyword bag `d` of the driver examples. */
  function DriverKwargs(): Kwargs {
    map["regions" := Str("phased.bed"), "reference" := Str("ref.fasta"),
        "sample_input" := Str("sample.bam"), "cores" := Int(4)]
  }

  /** The read filter the third example adds to `d`. */
  const PhasedFilter := "PhasedReadFilter,phased_vcf=p.vcf.gz"

  /** The keyword bag `d` after `d['read-filter'] = ...`. */
  function FilteredKwargs(): Kwargs {
    DriverKwargs()["read-filter" := Str(PhasedFilter)]
  }

  /** Neither bag holds a key that collides with a keyword parameter of the driver. */
  lemma NoCollision()
    ensures "bed_key" !in DriverKwargs() && "skip_sample_input" !in DriverKwargs()
    ensures "bed_key" !in FilteredKwargs() && "skip_sample_input" !in FilteredKwargs()
  {
  }

  /** The thread count renders as its decimal digits. */
  lemma FourRenders()
    ensures Render("cores", Int(4)) == Success("4")
  {
    assert NatToString(4) == "4";
  }

  /** The clauses of the driver command for `d`. */
  lemma DriverParts()
    ensures DriverReady(false, DriverKwargs())
    ensures HeadOf(DriverKwargs()) == "sentieon driver -t 4 -r ref.fasta "
    ensures IntervalClause(Some("regions"), DriverKwargs()) == " --interval phased.bed"
    ensures SampleClause(false, DriverKwargs()) == " -i sample.bam"
    ensures SampleClause(true, DriverKwargs()) == ""
    ensures ReadFilterClause(DriverKwargs()) == ""
  {
    var kw := DriverKwargs();
    assert kw["cores"] == Int(4);
    assert kw["reference"] == Str("ref.fasta");
    assert kw["regions"] == Str("phased.bed");
    assert kw["sample_input"] == Str("sample.bam");
    assert "read-filter" !in kw;
    FourRenders();
  }

  /**
   * `cmd_sentieon_driver(bed_key="regions", skip_sample_input=False, **d)`;
   * the expected text is written clause by clause.
   */
  lemma DriverWithSample()
    ensures DriverCall(Some("regions"), false, DriverKwargs())
      == Success("sentieon driver -t 4 -r ref.fasta " + " --interval phased.bed" + " -i sample.bam")
  {
    NoCollision();
    DriverParts();
    var t := "sentieon driver -t 4 -r ref.fasta " + " --interval phased.bed" + " -i sample.bam";
    assert t + "" == t;
  }

  /** `cmd_sentieon_driver(bed_key="regions", skip_sample_input=True, **d)`. */
  lemma DriverWithoutSample()
    ensures DriverCall(Some("regions"), true, DriverKwargs())
      == Success("sentieon driver -t 4 -r ref.fasta " + " --interval phased.bed")
  {
    NoCollision();
    DriverParts();
    var t := "sentieon driver -t 4 -r ref.fasta " + " --interval phased.bed";
    assert t + "" + "" == t;
  }

  /** The clauses of the driver command once the read filter is set. */
  lemma FilteredParts()
    ensures DriverReady(true, FilteredKwargs())
    ensures HeadOf(FilteredKwargs()) == "sentieon driver -t 4 -r ref.fasta "
    ensures IntervalClause(Some("regions"), FilteredKwargs()) == " --interval phased.bed"
    ensures SampleClause(true, FilteredKwargs()) == ""
    ensures ReadFilterClause(FilteredKwargs()) == " --read_filter " + PhasedFilter
  {
    var kw := FilteredKwargs();
    assert kw["cores"] == Int(4);
    assert kw["reference"] == Str("ref.fasta");
    assert kw["regions"] == Str("phased.bed");
    assert kw["read-filter"] == Str(PhasedFilter);
    FourRenders();
  }

  /** The third example: the read filter is passed even without the sample input. */
  lemma DriverWithFilter()
    ensures DriverCall(Some("regions"), true, FilteredKwargs())
      == Success("sentieon driver -t 4 -r ref.fasta " + " --interval phased.bed" + " --read_filter "
                 + "PhasedReadFilter,phased_vcf=p.vcf.gz")
  {
    NoCollision();
    FilteredParts();
    var h, i := "sentieon driver -t 4 -r ref.fasta ", " --interval phased.bed";
    assert h + i + "" == h + i;
    Assoc(h + i, " --read_filter ", PhasedFilter);
  }

  /* ---------------------------------------------------------------- */
  /* cmd_dnascope_hp                                                  */
  /* ---------------------------------------------------------------- */

  /** The keyword bag `d` of the haplotype examples. */
  function HpKwargs(): Kwargs {
    map["dbsnp" := Str("dbsnp.vcf.gz")]
  }

  /** The dbSNP clause for `d`. */
  lemma HpDbsnp()
    ensures Stages.HpDbsnpClause(HpKwargs()) == "--dbsnp dbsnp.vcf.gz "
  {
    assert HpKwargs()["dbsnp"] == Str("dbsnp.vcf.gz");
    assert Stages.DbsnpRequested(HpKwargs());
  }

  /** The ending shared by both examples, split where the docstring breaks its line. */
  lemma HpEndingText()
    ensures Stages.HpEnding("repeat_model", "hp.vcf.gz")
      == "--pcr_indel_model repeat_model" + " --min_repeat_count 6 hp.vcf.gz"
  {
    assert "--pcr_indel_model " + "repeat_model" == "--pcr_indel_model repeat_model";
    assert " --min_repeat_count 6 " + "hp.vcf.gz" == " --min_repeat_count 6 hp.vcf.gz";
    Assoc("--pcr_indel_model " + "repeat_model", " --min_repeat_count 6 ", "hp.vcf.gz");
  }

  /**
   * `cmd_dnascope_hp("haploid_hp_model", "repeat_model", "hp.vcf.gz", d)`;
   * the expected text is written clause by clause.
   */
  lemma HpWithModel()
    ensures Stages.DnascopeHp(Some("haploid_hp_model"), "repeat_model", "hp.vcf.gz", HpKwargs())
      == "--algo DNAscopeHP " + "--dbsnp dbsnp.vcf.gz " + "--model haploid_hp_model "
         + "--pcr_indel_model repeat_model" + " --min_repeat_count 6 hp.vcf.gz"
  {
    HpDbsnp();
    HpEndingText();
    ModelText();
    HpAssembled("haploid_hp_model", "repeat_model", "hp.vcf.gz", HpKwargs(), "--dbsnp dbsnp.vcf.gz ",
                "--model haploid_hp_model ", "--pcr_indel_model repeat_model", " --min_repeat_count 6 hp.vcf.gz");
  }

  /** The model clause of the example. */
  lemma ModelText()
    ensures "--model " + "haploid_hp_model" + " " == "--model haploid_hp_model "
  {
  }

  /** A haplotype pass with a model, assembled from its already rendered clauses. */
  lemma HpAssembled(m: string, repeatModel: string, hpVcf: string, kw: Kwargs,
                    dbsnp: string, clause: string, e1: string, e2: string)
    requires Stages.HpDbsnpClause(kw) == dbsnp
    requires Stages.HpEnding(repeatModel, hpVcf) == e1 + e2
    requires clause == "--model " + m + " "
    ensures Stages.DnascopeHp(Some(m), repeatModel, hpVcf, kw) == "--algo DNAscopeHP " + dbsnp + clause + e1 + e2
  {
    var lead := "--algo DNAscopeHP " + dbsnp;
    Stages.HpModelClause(m, repeatModel, hpVcf, kw);
    Assoc(lead, "--model " + m, " ");
    Assoc(lead, "--model ", m);
    Assoc(lead + clause, e1, e2);
  }

  /** `cmd_dnascope_hp(None, "repeat_model", "hp.vcf.gz", d)`: no `--model` clause. */
  lemma HpWithoutModel()
    ensures Stages.DnascopeHp(None, "repeat_model", "hp.vcf.gz", HpKwargs())
      == "--algo DNAscopeHP " + "--dbsnp dbsnp.vcf.gz "
         + "--pcr_indel_model repeat_model" + " --min_repeat_count 6 hp.vcf.gz"
  {
    var lead := "--algo DNAscopeHP " + "--dbsnp dbsnp.vcf.gz ";
    HpDbsnp();
    HpEndingText();
    Stages.HpModelClause("", "repeat_model", "hp.vcf.gz", HpKwargs());
    Assoc(lead, "--pcr_indel_model repeat_model", " --min_repeat_count 6 hp.vcf.gz");
  }

  /* ---------------------------------------------------------------- */
  /* cmd_pyexec_vcf_mod_haploid_patch                                 */
  /* ---------------------------------------------------------------- */

  /** The keyword bag of the haploid patch examples. */
  function PatchKwargs(): Kwargs {
    map["cores" := Int(2), "vcf_mod_py" := Str("vcf_mod.py")]
  }

  /**
   * The haplotype template of the examples is `"out_hap%d_%stmp.vcf.gz"`.
   * The lemmas below take it as a parameter fixed by their precondition.
   */
  predicate ExampleTemplate(patt: string) {
    patt == "out_hap%d_%stmp.vcf.gz"
  }

  /** The head of the examples renders. */
  lemma PatchHead()
    ensures Pyexec.PyexecReady("vcf_mod_py", PatchKwargs())
    ensures Pyexec.ScriptText("vcf_mod_py", PatchKwargs()) == "vcf_mod.py"
    ensures Pyexec.CoresText(PatchKwargs()) == "2"
  {
    var kw := PatchKwargs();
    assert kw["cores"] == Int(2) && kw["vcf_mod_py"] == Str("vcf_mod.py");
    assert NatToString(2) == "2";
  }

  /** The template is supported, and fills the first hole with the haplotype number. */
  lemma PatchFill(patt: string, n: nat, digit: string)
    requires ExampleTemplate(patt)
    requires n < 10 && digit == [('0' as int + n) as char]
    ensures Pyexec.PatternOk(patt)
    ensures Pyexec.Fill(patt, n, "") == "out_hap" + digit + "_tmp.vcf.gz"
  {
    var p, m, t := "out_hap", "_", "tmp.vcf.gz";
    assert patt == Pyexec.TwoHole(p, m, t);
    Pyexec.TwoHoleFill(p, m, t, n, "");
    assert NatToString(n) == digit;
    Assoc(p + digit, m, t);
  }

  /** The patched haplotype names of the examples. */
  lemma PatchNames(patt: string)
    requires ExampleTemplate(patt)
    ensures Pyexec.PatternOk(patt)
    ensures Pyexec.Fill(patt, 1, "") == "out_hap1_tmp.vcf.gz"
    ensures Pyexec.Fill(patt, 2, "") == "out_hap2_tmp.vcf.gz"
  {
    PatchFill(patt, 1, "1");
    PatchFill(patt, 2, "2");
    assert "out_hap" + "1" + "_tmp.vcf.gz" == "out_hap1_tmp.vcf.gz";
    assert "out_hap" + "2" + "_tmp.vcf.gz" == "out_hap2_tmp.vcf.gz";
  }

  /** The HiFi example: the un-patched first haplotype is passed with `--hap1`. */
  lemma HaploidHiFi(patt: string)
    requires ExampleTemplate(patt)
    ensures var r := Pyexec.HaploidPatch("h1.vcf.gz", "h2.vcf.gz", patt, "HiFi", None, PatchKwargs());
      r.Success? && Contains(r.value, "--hap1 ")
  {
    PatchHead();
    PatchFill(patt, 1, "1");
    var kw := PatchKwargs();
    var rest := Pyexec.Fill(patt, 1, "nohp_") + (" --hap2 " + Pyexec.Fill(patt, 2, "nohp_"));
    var e := Pyexec.PatchedHapsClause(patt);
    Pyexec.HaploidTechDiffers("h1.vcf.gz", "h2.vcf.gz", patt, None, kw);
    var lit := " --hap1 ";
    assert lit == " " + "--hap1 ";
    var c := lit + rest + e;
    Assoc(lit, rest, e);
    ContainsConcat(" ", "--hap1 ", rest + e);
    var lead := "haploid_patch " + ("--patch1 " + ("h1.vcf.gz" + (" --patch2 " + "h2.vcf.gz")));
    assert Pyexec.PatchInputs("h1.vcf.gz", "h2.vcf.gz", c) == lead + c by {
      Assoc("h1.vcf.gz", " --patch2 " + "h2.vcf.gz", c);
      Assoc(" --patch2 ", "h2.vcf.gz", c);
      Assoc("--patch1 ", "h1.vcf.gz" + (" --patch2 " + "h2.vcf.gz"), c);
      Assoc("haploid_patch ", "--patch1 " + ("h1.vcf.gz" + (" --patch2 " + "h2.vcf.gz")), c);
    }
    var head := Pyexec.PyexecHead("vcf_mod_py", kw);
    ContainsExtend(c, "--hap1 ", head + lead);
    Assoc(head, lead, c);
  }

  /** The words of the ONT example. */
  function OntArgv(): seq<string> {
    ["sentieon", "pyexec", "vcf_mod.py", "-t", "2",
     "haploid_patch", "--patch1", "h1.vcf.gz", "--patch2", "h2.vcf.gz",
     "--phased", "ph.vcf",
     "--hap1_hp", "out_hap1_tmp.vcf.gz", "--hap2_hp", "out_hap2_tmp.vcf.gz"]
  }

  /** The arguments of the ONT example are blank-free. */
  lemma OntBlankless(patt: string)
    requires ExampleTemplate(patt)
    ensures Blankless(patt) && Blankless("h1.vcf.gz") && Blankless("h2.vcf.gz")
    ensures Blankless(Pyexec.OptionText(Some("ph.vcf")))
  {
    assert patt == "out_hap" + "%d_" + "%stmp.vcf.gz";
  }

  /** The model's words for the ONT example are those words. */
  lemma OntArgvValue(patt: string)
    requires ExampleTemplate(patt)
    ensures Pyexec.PyexecReady("vcf_mod_py", PatchKwargs()) && Pyexec.PatternOk(patt)
    ensures Pyexec.HeadArgv("vcf_mod_py", PatchKwargs())
      + Pyexec.HaploidArgv("h1.vcf.gz", "h2.vcf.gz", patt, "ONT", Some("ph.vcf")) == OntArgv()
  {
    PatchHead();
    PatchNames(patt);
    assert Pyexec.HeadArgv("vcf_mod_py", PatchKwargs()) == ["sentieon", "pyexec", "vcf_mod.py", "-t", "2"];
    assert Pyexec.TechArgv(patt, "ONT", Some("ph.vcf")) == ["--phased", "ph.vcf"];
  }

  /** The ONT example command splits into those words. */
  lemma OntWords(patt: string)
    requires ExampleTemplate(patt)
    ensures var r := Pyexec.HaploidPatch("h1.vcf.gz", "h2.vcf.gz", patt, "ONT", Some("ph.vcf"), PatchKwargs());
      r.Success? && Split(r.value, ' ') == OntArgv()
  {
    PatchHead();
    OntBlankless(patt);
    OntArgvValue(patt);
    Pyexec.HaploidWords("h1.vcf.gz", "h2.vcf.gz", patt, "ONT", Some("ph.vcf"), PatchKwargs());
  }

  /** A word that does not end in `--hap1`. */
  predicate NotHap1(w: string) {
    !EndsWith(w, "--hap1")
  }

  /** No word of the ONT example ends in `--hap1`. */
  lemma OntWordsNotHap1(argv: seq<string>)
    requires argv == OntArgv()
    ensures forall k :: 0 <= k < |argv| ==> NotHap1(argv[k])
  {
    forall k | 0 <= k < |argv|
      ensures NotHap1(argv[k])
    {
      var w := argv[k];
      if w[|w| - 1] == '1' {
        assert w == "--patch1";
      }
    }
  }

  /** The ONT example: no `--hap1 ` anywhere, since no word of it ends in `--hap1`. */
  lemma HaploidOnt(patt: string)
    requires ExampleTemplate(patt)
    ensures var r := Pyexec.HaploidPatch("h1.vcf.gz", "h2.vcf.gz", patt, "ONT", Some("ph.vcf"), PatchKwargs());
      r.Success? && !Contains(r.value, "--hap1 ")
  {
    var argv := OntArgv();
    OntWords(patt);
    OntWordsNotHap1(argv);
    var r := Pyexec.HaploidPatch("h1.vcf.gz", "h2.vcf.gz", patt, "ONT", Some("ph.vcf"), PatchKwargs());
    if Contains(r.value, "--hap1 ") {
      assert "--hap1" + " " == "--hap1 ";
      NeedleEndsWord(r.value, "--hap1");
      assert false;
    }
  }
}
