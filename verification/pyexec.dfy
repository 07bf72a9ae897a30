/**
 * The `sentieon pyexec` builders: the haploid patch, the patch and the
 * merge of `vcf_mod.py`, and the gVCF combine pipeline.
 */
module Pyexec {
  import opened Strings
  import opened Values
  import opened Words

  /* ---------------------------------------------------------------- */
  /* The `sentieon pyexec SCRIPT -t CORES ` head                       */
  /* ---------------------------------------------------------------- */

  /** Both f-string fields of the head render: the script under `scriptKey`, then `cores`. */
  predicate PyexecReady(scriptKey: string, kw: Kwargs) {
    && scriptKey in kw && !kw[scriptKey].Handle?
    && "cores" in kw && !kw["cores"].Handle?
  }

  /** The rendered script path. */
  function ScriptText(scriptKey: string, kw: Kwargs): string
    requires PyexecReady(scriptKey, kw)
  {
    Render(scriptKey, kw[scriptKey]).value
  }

  /** The rendered thread count. */
  function CoresText(kw: Kwargs): string
    requires "cores" in kw && !kw["cores"].Handle?
  {
    Render("cores", kw["cores"]).value
  }

  /** The head, once both fields render. */
  function PyexecHead(scriptKey: string, kw: Kwargs): (h: string)
    requires PyexecReady(scriptKey, kw)
    ensures "sentieon pyexec " + ScriptText(scriptKey, kw) <= h
    ensures EndsWith(h, " -t " + CoresText(kw) + " ")
  {
    Assoc("sentieon pyexec ", ScriptText(scriptKey, kw), " -t " + (CoresText(kw) + " "));
    Assoc(" -t ", CoresText(kw), " ");
    EndsWithConcat("sentieon pyexec " + ScriptText(scriptKey, kw), " -t " + CoresText(kw) + " ");

    "sentieon pyexec " + (ScriptText(scriptKey, kw) + (" -t " + (CoresText(kw) + " ")))
  }

  /** The exception the head raises: the script field is evaluated before `cores`. */
  function PyexecError(scriptKey: string, kw: Kwargs): (e: Error)
    requires !PyexecReady(scriptKey, kw)
    ensures scriptKey !in kw ==> e == KeyError(scriptKey)
    ensures scriptKey in kw && kw[scriptKey].Handle? ==> e == Unrendered(scriptKey)
    ensures scriptKey in kw && !kw[scriptKey].Handle? && "cores" !in kw ==> e == KeyError("cores")
    ensures scriptKey in kw && !kw[scriptKey].Handle? && "cores" in kw && kw["cores"].Handle? ==> e == Unrendered("cores")
    ensures e.KeyError? ==> e.key !in kw
    ensures e.Unrendered? ==> e.key in kw && kw[e.key].Handle?
    ensures e.KeyError? || e.Unrendered?
  {
    if TextAt(kw, scriptKey).Failure? then TextAt(kw, scriptKey).error
    else TextAt(kw, "cores").error
  }

  /* ---------------------------------------------------------------- */
  /* The command line as the words a shell passes on                  */
  /* ---------------------------------------------------------------- */

  /** The words of the head. */
  function HeadArgv(scriptKey: string, kw: Kwargs): seq<string>
    requires PyexecReady(scriptKey, kw)
  {
    ["sentieon", "pyexec", ScriptText(scriptKey, kw), "-t", CoresText(kw)]
  }

  /** Regrouping the head in front of what follows it. */
  lemma HeadRegroup(a: string, b: string, c: string, d: string, rest: string)
    ensures a + (b + (c + (d + " "))) + rest == a + (b + (c + (d + (" " + rest))))
  {
  }

  /** Whatever follows the head is split on its own. */
  lemma HeadWords(scriptKey: string, kw: Kwargs, rest: string)
    requires PyexecReady(scriptKey, kw)
    requires Blankless(ScriptText(scriptKey, kw)) && Blankless(CoresText(kw))
    ensures Split(PyexecHead(scriptKey, kw) + rest, ' ') == HeadArgv(scriptKey, kw) + Split(rest, ' ')
  {
    var script, cores := ScriptText(scriptKey, kw), CoresText(kw);
    var s3 := cores + (" " + rest);
    HeadRegroup("sentieon pyexec ", script, " -t ", cores, rest);
    Glue2(" -t ", "-t", s3);
    var s1 := script + (" -t " + s3);
    GlueFront("sentieon pyexec ", "sentieon", "pyexec ", s1);
    Glue("pyexec ", "pyexec", s1);
    FourWordsThen("sentieon", "pyexec", script, "-t", s3);
    SplitWord(cores, rest, ' ');
  }

  /* ---------------------------------------------------------------- */
  /* `hap_patt % (n, s)`                                               */
  /* ---------------------------------------------------------------- */

  /** The template `<p>%d<m>%s<t>` with literal parts free of `%`. */
  function TwoHole(p: string, m: string, t: string): string {
    p + "%d" + m + "%s" + t
  }

  /**
   * A template the model formats: exactly two conversions, `%d` then `%s`,
   * and no other `%`.
   */
  predicate PatternOk(patt: string) {
    var parts := Split(patt, '%');
    && |parts| == 3
    && parts[1] != "" && parts[1][0] == 'd'
    && parts[2] != "" && parts[2][0] == 's'
  }

  /** `patt % (n, s)` for a template of the supported form. */
  function Fill(patt: string, n: nat, s: string): string
    requires PatternOk(patt)
  {
    var parts := Split(patt, '%');
    parts[0] + NatToString(n) + parts[1][1..] + s + parts[2][1..]
  }

  /** `patt % (n, s)`, failing on a template outside the supported form. */
  function FormatPattern(patt: string, n: nat, s: string): (r: Result<string>)
    ensures r.Success? <==> PatternOk(patt)
    ensures r.Failure? ==> r.error == UnsupportedPattern(patt)
  {
    if PatternOk(patt) then Success(Fill(patt, n, s)) else Failure(UnsupportedPattern(patt))
  }

  /** Every two-hole template is supported, and formatting fills its holes in order. */
  lemma TwoHoleFill(p: string, m: string, t: string, n: nat, s: string)
    requires '%' !in p && '%' !in m && '%' !in t
    ensures PatternOk(TwoHole(p, m, t))
    ensures Fill(TwoHole(p, m, t), n, s) == p + NatToString(n) + m + s + t
  {
    var fields := [p, "d" + m, "s" + t];
    assert Join(fields[2..], '%') == "s" + t;
    assert Join(fields[1..], '%') == "d" + m + ['%'] + ("s" + t);
    assert Join(fields, '%') == TwoHole(p, m, t);
    SplitJoin(fields, '%');
    assert ("d" + m)[1..] == m;
    assert ("s" + t)[1..] == t;
  }

  /** Conversely, every supported template is a two-hole template. */
  lemma PatternShape(patt: string)
    requires PatternOk(patt)
    ensures var parts := Split(patt, '%');
      && patt == TwoHole(parts[0], parts[1][1..], parts[2][1..])
      && '%' !in parts[0] && '%' !in parts[1][1..] && '%' !in parts[2][1..]
  {
    var parts := Split(patt, '%');
    JoinSplit(patt, '%');
    assert parts[1..][1..] == [parts[2]];
    assert Join(parts[1..][1..], '%') == parts[2];
    assert Join(parts[1..], '%') == parts[1] + ['%'] + parts[2];
    assert Join(parts, '%') == parts[0] + ['%'] + (parts[1] + ['%'] + parts[2]);
    assert parts[1] == "d" + parts[1][1..];
    assert parts[2] == "s" + parts[2][1..];
    assert '%' !in parts[1][1..] by { assert forall c :: c in parts[1][1..] ==> c in parts[1]; }
    assert '%' !in parts[2][1..] by { assert forall c :: c in parts[2][1..] ==> c in parts[2]; }
  }

  /** Formatting a blank-free template with blank-free text gives a blank-free word. */
  lemma FillBlankless(patt: string, n: nat, s: string)
    requires PatternOk(patt) && Blankless(patt) && Blankless(s)
    ensures Blankless(Fill(patt, n, s))
  {
    PatternShape(patt);
    assert ' ' !in NatToString(n);
  }

  /* ---------------------------------------------------------------- */
  /* cmd_pyexec_vcf_mod_haploid_patch                                  */
  /* ---------------------------------------------------------------- */

  /** The sequencing technologies the builder accepts. */
  predicate KnownTech(tech: string) {
    tech == "HiFi" || tech == "ONT"
  }

  /** `f"{phased_vcf}"` for an optional path. */
  function OptionText(v: Option<string>): (t: string)
    ensures v.Some? ==> t == v.value
    ensures v.None? ==> t == "None"
  {
    if v.Some? then v.value else "None"
  }

  /** The technology-specific clause: un-patched haplotypes for HiFi, the phased VCF for ONT. */
  function TechClause(hapPatt: string, tech: string, phasedVcf: Option<string>): string
    requires PatternOk(hapPatt)
  {
    if tech == "HiFi" then " --hap1 " + (Fill(hapPatt, 1, "nohp_") + (" --hap2 " + Fill(hapPatt, 2, "nohp_")))
    else " --phased " + OptionText(phasedVcf)
  }

  /** The patched haplotypes that close every haploid patch command. */
  function PatchedHapsClause(hapPatt: string): string
    requires PatternOk(hapPatt)
  {
    " --hap1_hp " + (Fill(hapPatt, 1, "") + (" --hap2_hp " + Fill(hapPatt, 2, "")))
  }

  /** The `haploid_patch` sub-command and its patch inputs, followed by `clauses`. */
  function PatchInputs(hap1Patch: string, hap2Patch: string, clauses: string): string {
    "haploid_patch " + ("--patch1 " + (hap1Patch + (" --patch2 " + (hap2Patch + clauses))))
  }

  /** The `haploid_patch` sub-command with its arguments. */
  function HaploidArgs(hap1Patch: string, hap2Patch: string, hapPatt: string, tech: string,
                       phasedVcf: Option<string>): string
    requires PatternOk(hapPatt)
  {
    PatchInputs(hap1Patch, hap2Patch, TechClause(hapPatt, tech, phasedVcf) + PatchedHapsClause(hapPatt))
  }

  /**
   * `cmd_pyexec_vcf_mod_haploid_patch`: the technology is checked first,
   * then the head renders, then the template is formatted.
   */
  function HaploidPatch(hap1Patch: string, hap2Patch: string, hapPatt: string, tech: string,
                        phasedVcf: Option<string>, kw: Kwargs): (r: Result<string>)
    ensures r.Success? <==> KnownTech(tech) && PyexecReady("vcf_mod_py", kw) && PatternOk(hapPatt)
    ensures !KnownTech(tech) ==> r == Failure(UnknownTech(tech))
    ensures KnownTech(tech) && !PyexecReady("vcf_mod_py", kw) ==> r == Failure(PyexecError("vcf_mod_py", kw))
    ensures KnownTech(tech) && PyexecReady("vcf_mod_py", kw) && !PatternOk(hapPatt)
      ==> r == Failure(UnsupportedPattern(hapPatt))
  {
    if !KnownTech(tech) then Failure(UnknownTech(tech))
    else if !PyexecReady("vcf_mod_py", kw) then Failure(PyexecError("vcf_mod_py", kw))
    else if !PatternOk(hapPatt) then Failure(UnsupportedPattern(hapPatt))
    else Success(PyexecHead("vcf_mod_py", kw) + HaploidArgs(hap1Patch, hap2Patch, hapPatt, tech, phasedVcf))
  }

  /** The words of the technology clause. */
  function TechArgv(hapPatt: string, tech: string, phasedVcf: Option<string>): seq<string>
    requires PatternOk(hapPatt)
  {
    if tech == "HiFi" then ["--hap1", Fill(hapPatt, 1, "nohp_"), "--hap2", Fill(hapPatt, 2, "nohp_")]
    else ["--phased", OptionText(phasedVcf)]
  }

  /** The words of a haploid patch command after the head. */
  function HaploidArgv(hap1Patch: string, hap2Patch: string, hapPatt: string, tech: string,
                       phasedVcf: Option<string>): seq<string>
    requires PatternOk(hapPatt)
  {
    ["haploid_patch", "--patch1", hap1Patch, "--patch2", hap2Patch]
      + TechArgv(hapPatt, tech, phasedVcf)
      + ["--hap1_hp", Fill(hapPatt, 1, ""), "--hap2_hp", Fill(hapPatt, 2, "")]
  }

  /** The ending opens with a blank, and its words follow. */
  lemma PatchedHapsWords(hapPatt: string)
    requires PatternOk(hapPatt) && Blankless(hapPatt)
    ensures BlankLed(PatchedHapsClause(hapPatt))
    ensures Split(PatchedHapsClause(hapPatt)[1..], ' ') == ["--hap1_hp", Fill(hapPatt, 1, ""), "--hap2_hp", Fill(hapPatt, 2, "")]
  {
    var g1, g2 := Fill(hapPatt, 1, ""), Fill(hapPatt, 2, "");
    FillBlankless(hapPatt, 1, "");
    FillBlankless(hapPatt, 2, "");
    var t := "--hap1_hp" + (" " + (g1 + (" " + ("--hap2_hp" + (" " + g2)))));
    Glue2(" --hap2_hp ", "--hap2_hp", g2);
    Glue2(" --hap1_hp ", "--hap1_hp", g1 + (" --hap2_hp " + g2));
    assert PatchedHapsClause(hapPatt) == " " + t;
    assert (" " + t)[1..] == t;
    FourWords("--hap1_hp", g1, "--hap2_hp", g2);
  }

  /** The HiFi clause opens with a blank, and its words follow. */
  lemma HiFiClauseWords(hapPatt: string, phasedVcf: Option<string>)
    requires PatternOk(hapPatt) && Blankless(hapPatt)
    ensures BlankLed(TechClause(hapPatt, "HiFi", phasedVcf))
    ensures Split(TechClause(hapPatt, "HiFi", phasedVcf)[1..], ' ') == TechArgv(hapPatt, "HiFi", phasedVcf)
  {
    var f1, f2 := Fill(hapPatt, 1, "nohp_"), Fill(hapPatt, 2, "nohp_");
    FillBlankless(hapPatt, 1, "nohp_");
    FillBlankless(hapPatt, 2, "nohp_");
    var t := "--hap1" + (" " + (f1 + (" " + ("--hap2" + (" " + f2)))));
    Glue2(" --hap2 ", "--hap2", f2);
    Glue2(" --hap1 ", "--hap1", f1 + (" --hap2 " + f2));
    assert TechClause(hapPatt, "HiFi", phasedVcf) == " " + t;
    assert (" " + t)[1..] == t;
    FourWords("--hap1", f1, "--hap2", f2);
  }

  /** The ONT clause opens with a blank, and its words follow. */
  lemma OntClauseWords(hapPatt: string, phasedVcf: Option<string>)
    requires PatternOk(hapPatt) && Blankless(OptionText(phasedVcf))
    ensures BlankLed(TechClause(hapPatt, "ONT", phasedVcf))
    ensures Split(TechClause(hapPatt, "ONT", phasedVcf)[1..], ' ') == TechArgv(hapPatt, "ONT", phasedVcf)
  {
    var p := OptionText(phasedVcf);
    var t := "--phased" + (" " + p);
    Glue2(" --phased ", "--phased", p);
    assert TechClause(hapPatt, "ONT", phasedVcf) == " " + t;
    assert (" " + t)[1..] == t;
    TwoWords("--phased", p);
  }
  /** The words from `haploid_patch` up to the technology clause. */
  lemma LeadWords(hap1Patch: string, hap2Patch: string, c: string)
    requires Blankless(hap1Patch) && Blankless(hap2Patch) && BlankLed(c)
    ensures Split(PatchInputs(hap1Patch, hap2Patch, c), ' ')
      == ["haploid_patch", "--patch1", hap1Patch, "--patch2", hap2Patch] + Split(c[1..], ' ')
  {
    var rest := hap2Patch + c;
    WordBeforeClause(hap2Patch, c);
    FourWordsThen("haploid_patch", "--patch1", hap1Patch, "--patch2", rest);
    Glue2(" --patch2 ", "--patch2", rest);
    Glue("--patch1 ", "--patch1", hap1Patch + (" --patch2 " + rest));
    Glue("haploid_patch ", "haploid_patch", "--patch1 " + (hap1Patch + (" --patch2 " + rest)));
  }

  /**
   * With blank-free arguments and template, splitting the command at blanks
   * gives the head, the patch inputs, the technology clause and the patched
   * haplotypes as separate words.
   */
  lemma HaploidWords(hap1Patch: string, hap2Patch: string, hapPatt: string, tech: string,
                     phasedVcf: Option<string>, kw: Kwargs)
    requires HaploidPatch(hap1Patch, hap2Patch, hapPatt, tech, phasedVcf, kw).Success?
    requires Blankless(ScriptText("vcf_mod_py", kw)) && Blankless(CoresText(kw))
    requires Blankless(hap1Patch) && Blankless(hap2Patch) && Blankless(hapPatt) && Blankless(OptionText(phasedVcf))
    ensures Split(HaploidPatch(hap1Patch, hap2Patch, hapPatt, tech, phasedVcf, kw).value, ' ')
      == HeadArgv("vcf_mod_py", kw) + HaploidArgv(hap1Patch, hap2Patch, hapPatt, tech, phasedVcf)
  {
    var m, e := TechClause(hapPatt, tech, phasedVcf), PatchedHapsClause(hapPatt);
    var lead := ["haploid_patch", "--patch1", hap1Patch, "--patch2", hap2Patch];
    var hp := ["--hap1_hp", Fill(hapPatt, 1, ""), "--hap2_hp", Fill(hapPatt, 2, "")];
    assert BlankLed(m + e) && Split((m + e)[1..], ' ') == TechArgv(hapPatt, tech, phasedVcf) + hp by {
      PatchedHapsWords(hapPatt);
      if tech == "HiFi" { HiFiClauseWords(hapPatt, phasedVcf); } else { OntClauseWords(hapPatt, phasedVcf); }
      ClausesWords(m, e);
    }
    LeadWords(hap1Patch, hap2Patch, m + e);
    HeadWords("vcf_mod_py", kw, HaploidArgs(hap1Patch, hap2Patch, hapPatt, tech, phasedVcf));
    SeqRegroup(HeadArgv("vcf_mod_py", kw), lead, TechArgv(hapPatt, tech, phasedVcf), hp);
  }

  /** Regrouping four word lists. */
  lemma SeqRegroup(a: seq<string>, b: seq<string>, c: seq<string>, d: seq<string>)
    ensures a + (b + (c + d)) == a + (b + c + d)
  {
  }

  /** HiFi and ONT commands differ only in the technology clause. */
  lemma HaploidTechDiffers(hap1Patch: string, hap2Patch: string, hapPatt: string,
                           phasedVcf: Option<string>, kw: Kwargs)
    requires PyexecReady("vcf_mod_py", kw) && PatternOk(hapPatt)
    ensures HaploidPatch(hap1Patch, hap2Patch, hapPatt, "HiFi", phasedVcf, kw)
      == Success(PyexecHead("vcf_mod_py", kw) + PatchInputs(hap1Patch, hap2Patch,
           " --hap1 " + (Fill(hapPatt, 1, "nohp_") + (" --hap2 " + Fill(hapPatt, 2, "nohp_"))) + PatchedHapsClause(hapPatt)))
    ensures HaploidPatch(hap1Patch, hap2Patch, hapPatt, "ONT", phasedVcf, kw)
      == Success(PyexecHead("vcf_mod_py", kw) + PatchInputs(hap1Patch, hap2Patch,
           " --phased " + OptionText(phasedVcf) + PatchedHapsClause(hapPatt)))
  {
  }

  /** Whatever the technology, the command starts with the head and names the patched haplotypes last. */
  lemma HaploidEndsWithHp(hap1Patch: string, hap2Patch: string, hapPatt: string, tech: string,
                          phasedVcf: Option<string>, kw: Kwargs)
    requires HaploidPatch(hap1Patch, hap2Patch, hapPatt, tech, phasedVcf, kw).Success?
    ensures PyexecHead("vcf_mod_py", kw) <= HaploidPatch(hap1Patch, hap2Patch, hapPatt, tech, phasedVcf, kw).value
    ensures EndsWith(HaploidPatch(hap1Patch, hap2Patch, hapPatt, tech, phasedVcf, kw).value, PatchedHapsClause(hapPatt))
  {
    var m, e := TechClause(hapPatt, tech, phasedVcf), PatchedHapsClause(hapPatt);
    EndsWithConcat(m, e);
    EndsWithExtend(hap2Patch, m + e, e);
    EndsWithExtend(" --patch2 ", hap2Patch + (m + e), e);
    EndsWithExtend(hap1Patch, " --patch2 " + (hap2Patch + (m + e)), e);
    EndsWithExtend("--patch1 ", hap1Patch + (" --patch2 " + (hap2Patch + (m + e))), e);
    EndsWithExtend("haploid_patch ", "--patch1 " + (hap1Patch + (" --patch2 " + (hap2Patch + (m + e)))), e);
    assert PatchInputs(hap1Patch, hap2Patch, m + e)
      == "haploid_patch " + ("--patch1 " + (hap1Patch + (" --patch2 " + (hap2Patch + (m + e)))));
    EndsWithExtend(PyexecHead("vcf_mod_py", kw), HaploidArgs(hap1Patch, hap2Patch, hapPatt, tech, phasedVcf), e);
  }

  /* ---------------------------------------------------------------- */
  /* cmd_pyexec_vcf_mod_patch and cmd_pyexec_vcf_mod_merge             */
  /* ---------------------------------------------------------------- */

  /** The `patch` sub-command with its arguments. */
  function PatchArgs(outVcf: string, vcf: string, vcfHp: string): string {
    "patch --vcf " + (vcf + (" --vcf_hp " + (vcfHp + (" " + outVcf))))
  }

  /** `cmd_pyexec_vcf_mod_patch`. */
  function Patch(outVcf: string, vcf: string, vcfHp: string, kw: Kwargs): (r: Result<string>)
    ensures r.Success? <==> PyexecReady("vcf_mod_py", kw)
    ensures r.Failure? ==> r.error == PyexecError("vcf_mod_py", kw)
  {
    if PyexecReady("vcf_mod_py", kw) then Success(PyexecHead("vcf_mod_py", kw) + PatchArgs(outVcf, vcf, vcfHp))
    else Failure(PyexecError("vcf_mod_py", kw))
  }

  /** The words of the `patch` sub-command: both inputs behind their flags, the output last. */
  function PatchArgv(outVcf: string, vcf: string, vcfHp: string): seq<string> {
    ["patch", "--vcf", vcf, "--vcf_hp", vcfHp, outVcf]
  }

  /** With blank-free arguments, the patch command splits into the expected words. */
  lemma PatchWords(outVcf: string, vcf: string, vcfHp: string, kw: Kwargs)
    requires PyexecReady("vcf_mod_py", kw)
    requires Blankless(ScriptText("vcf_mod_py", kw)) && Blankless(CoresText(kw))
    requires Blankless(outVcf) && Blankless(vcf) && Blankless(vcfHp)
    ensures Split(Patch(outVcf, vcf, vcfHp, kw).value, ' ') == HeadArgv("vcf_mod_py", kw) + PatchArgv(outVcf, vcf, vcfHp)
  {
    var y := vcfHp + (" " + outVcf);
    var x := vcf + (" --vcf_hp " + y);
    Glue2(" --vcf_hp ", "--vcf_hp", y);
    GlueFront("patch --vcf ", "patch", "--vcf ", x);
    Glue("--vcf ", "--vcf", x);
    FourWordsThen("patch", "--vcf", vcf, "--vcf_hp", y);
    TwoWords(vcfHp, outVcf);
    HeadWords("vcf_mod_py", kw, PatchArgs(outVcf, vcf, vcfHp));
  }

  /** The `merge` sub-command with its arguments. */
  function MergeArgs(hap1Vcf: string, hap2Vcf: string, unphasedVcf: string, phasedVcf: string,
                     phasedBed: string, outVcf: string): string {
    "merge --hap1 " + (hap1Vcf + (" --hap2 " + (hap2Vcf + (" --unphased " + (unphasedVcf + (" "
      + ("--phased " + (phasedVcf + (" --bed " + (phasedBed + (" " + outVcf)))))))))))
  }

  /** `cmd_pyexec_vcf_mod_merge`. */
  function Merge(hap1Vcf: string, hap2Vcf: string, unphasedVcf: string, phasedVcf: string,
                 phasedBed: string, outVcf: string, kw: Kwargs): (r: Result<string>)
    ensures r.Success? <==> PyexecReady("vcf_mod_py", kw)
    ensures r.Failure? ==> r.error == PyexecError("vcf_mod_py", kw)
  {
    if PyexecReady("vcf_mod_py", kw) then
      Success(PyexecHead("vcf_mod_py", kw) + MergeArgs(hap1Vcf, hap2Vcf, unphasedVcf, phasedVcf, phasedBed, outVcf))
    else Failure(PyexecError("vcf_mod_py", kw))
  }

  /** The words of the `merge` sub-command: every input behind its flag, the output last. */
  function MergeArgv(hap1Vcf: string, hap2Vcf: string, unphasedVcf: string, phasedVcf: string,
                     phasedBed: string, outVcf: string): seq<string> {
    ["merge", "--hap1", hap1Vcf, "--hap2", hap2Vcf, "--unphased", unphasedVcf,
     "--phased", phasedVcf, "--bed", phasedBed, outVcf]
  }

  /** The second half of the `merge` arguments. */
  lemma MergeTailWords(phasedVcf: string, phasedBed: string, outVcf: string)
    requires Blankless(phasedVcf) && Blankless(phasedBed) && Blankless(outVcf)
    ensures Split("--phased " + (phasedVcf + (" --bed " + (phasedBed + (" " + outVcf)))), ' ')
      == ["--phased", phasedVcf, "--bed", phasedBed, outVcf]
  {
    var x := phasedVcf + (" --bed " + (phasedBed + (" " + outVcf)));
    Glue2(" --bed ", "--bed", phasedBed + (" " + outVcf));
    Glue("--phased ", "--phased", x);
    FourWordsThen("--phased", phasedVcf, "--bed", phasedBed, outVcf);
    SplitSingle(outVcf, ' ');
  }

  /** The inputs of the `merge` arguments, one blank between each two words. */
  lemma MergeHeadText(hap1Vcf: string, hap2Vcf: string, unphasedVcf: string, t: string)
    ensures "merge --hap1 " + (hap1Vcf + (" --hap2 " + (hap2Vcf + (" --unphased " + (unphasedVcf + (" " + t))))))
      == "merge" + (" " + ("--hap1" + (" " + (hap1Vcf + (" " + ("--hap2" + (" " + (hap2Vcf
         + (" " + ("--unphased" + (" " + (unphasedVcf + (" " + t)))))))))))))
  {
    var x3 := unphasedVcf + (" " + t);
    var x2 := hap2Vcf + (" --unphased " + x3);
    var x1 := hap1Vcf + (" --hap2 " + x2);
    Glue2(" --unphased ", "--unphased", x3);
    Glue2(" --hap2 ", "--hap2", x2);
    GlueFront("merge --hap1 ", "merge", "--hap1 ", x1);
    Glue("--hap1 ", "--hap1", x1);
  }

  /** The inputs of the `merge` arguments, up to the phased VCF. */
  lemma MergeHeadWords(hap1Vcf: string, hap2Vcf: string, unphasedVcf: string, t: string)
    requires Blankless(hap1Vcf) && Blankless(hap2Vcf) && Blankless(unphasedVcf)
    ensures Split("merge --hap1 " + (hap1Vcf + (" --hap2 " + (hap2Vcf + (" --unphased " + (unphasedVcf + (" " + t)))))), ' ')
      == ["merge", "--hap1", hap1Vcf, "--hap2", hap2Vcf, "--unphased", unphasedVcf] + Split(t, ' ')
  {
    MergeHeadText(hap1Vcf, hap2Vcf, unphasedVcf, t);
    var x3 := unphasedVcf + (" " + t);
    var y := hap2Vcf + (" " + ("--unphased" + (" " + x3)));
    SplitWord(unphasedVcf, t, ' ');
    SplitWord("--unphased", x3, ' ');
    SplitWord(hap2Vcf, "--unphased" + (" " + x3), ' ');
    FourWordsThen("merge", "--hap1", hap1Vcf, "--hap2", y);
  }

  /** With blank-free arguments, the merge command splits into the expected words. */
  lemma MergeWords(hap1Vcf: string, hap2Vcf: string, unphasedVcf: string, phasedVcf: string,
                   phasedBed: string, outVcf: string, kw: Kwargs)
    requires PyexecReady("vcf_mod_py", kw)
    requires Blankless(ScriptText("vcf_mod_py", kw)) && Blankless(CoresText(kw))
    requires Blankless(hap1Vcf) && Blankless(hap2Vcf) && Blankless(unphasedVcf)
    requires Blankless(phasedVcf) && Blankless(phasedBed) && Blankless(outVcf)
    ensures Split(Merge(hap1Vcf, hap2Vcf, unphasedVcf, phasedVcf, phasedBed, outVcf, kw).value, ' ')
      == HeadArgv("vcf_mod_py", kw) + MergeArgv(hap1Vcf, hap2Vcf, unphasedVcf, phasedVcf, phasedBed, outVcf)
  {
    var t := "--phased " + (phasedVcf + (" --bed " + (phasedBed + (" " + outVcf))));
    MergeTailWords(phasedVcf, phasedBed, outVcf);
    MergeHeadWords(hap1Vcf, hap2Vcf, unphasedVcf, t);
    HeadWords("vcf_mod_py", kw, MergeArgs(hap1Vcf, hap2Vcf, unphasedVcf, phasedVcf, phasedBed, outVcf));
  }

  /* ---------------------------------------------------------------- */
  /* cmd_pyexec_gvcf_combine                                           */
  /* ---------------------------------------------------------------- */

  /** The name `vcfconvert` writes: every `.vcf.gz` of the output becomes `.g.vcf.gz`. */
  function GvcfName(outVcf: string): string {
    ReplaceAll(outVcf, ".vcf.gz", ".g.vcf.gz")
  }

  /** The combine step writing to standard output, piped into the conversion step. */
  function CombineArgs(gvcf: string, outVcf: string): string {
    gvcf + (" " + (outVcf + (" -" + (" | sentieon util vcfconvert - " + GvcfName(outVcf)))))
  }

  /** `cmd_pyexec_gvcf_combine`. */
  function GvcfCombine(gvcf: string, outVcf: string, kw: Kwargs): (r: Result<string>)
    ensures r.Success? <==> PyexecReady("gvcf_combine_py", kw)
    ensures r.Failure? ==> r.error == PyexecError("gvcf_combine_py", kw)
  {
    if PyexecReady("gvcf_combine_py", kw) then Success(PyexecHead("gvcf_combine_py", kw) + CombineArgs(gvcf, outVcf))
    else Failure(PyexecError("gvcf_combine_py", kw))
  }

  /** The words of the pipeline after the head. */
  function CombineArgv(gvcf: string, outVcf: string): seq<string> {
    [gvcf, outVcf, "-", "|", "sentieon", "util", "vcfconvert", "-", GvcfName(outVcf)]
  }

  /** The conversion command, word by word. */
  lemma ConvertLiteral()
    ensures " | sentieon util vcfconvert - " == " " + "|" + " " + "sentieon" + " " + "util" + " " + "vcfconvert" + " " + "-" + " "
  {
  }

  /** Regrouping five words and a tail, each after a blank. */
  lemma NestFive(a: string, b: string, c: string, d: string, e: string, g: string)
    ensures " " + a + " " + b + " " + c + " " + d + " " + e + " " + g
         == " " + (a + (" " + (b + (" " + (c + (" " + (d + (" " + (e + (" " + g))))))))))
  {
  }

  /** The conversion step opens with a blank, and its words follow. */
  lemma ConvertWords(outVcf: string)
    requires Blankless(outVcf)
    ensures var c := " | sentieon util vcfconvert - " + GvcfName(outVcf);
      && BlankLed(c)
      && Split(c[1..], ' ') == ["|", "sentieon", "util", "vcfconvert", "-", GvcfName(outVcf)]
  {
    var g := GvcfName(outVcf);
    ReplaceKeepsAbsent(outVcf, ".vcf.gz", ".g.vcf.gz", ' ');
    TwoWords("-", g);
    var last := "-" + (" " + g);
    FourWordsThen("|", "sentieon", "util", "vcfconvert", last);
    var t := "|" + (" " + ("sentieon" + (" " + ("util" + (" " + ("vcfconvert" + (" " + last)))))));
    ConvertLiteral();
    NestFive("|", "sentieon", "util", "vcfconvert", "-", g);
    assert " | sentieon util vcfconvert - " + g == " " + t;
    assert (" " + t)[1..] == t;
  }

  /** With blank-free arguments, the pipeline splits into the expected words. */
  lemma GvcfCombineWords(gvcf: string, outVcf: string, kw: Kwargs)
    requires PyexecReady("gvcf_combine_py", kw)
    requires Blankless(ScriptText("gvcf_combine_py", kw)) && Blankless(CoresText(kw))
    requires Blankless(gvcf) && Blankless(outVcf)
    ensures Split(GvcfCombine(gvcf, outVcf, kw).value, ' ') == HeadArgv("gvcf_combine_py", kw) + CombineArgv(gvcf, outVcf)
  {
    var c := " | sentieon util vcfconvert - " + GvcfName(outVcf);
    ConvertWords(outVcf);
    WordBeforeClause("-", c);
    var s2 := "-" + c;
    assert " -" + c == " " + s2;
    SplitWord(outVcf, s2, ' ');
    SplitWord(gvcf, outVcf + (" " + s2), ' ');
    assert CombineArgs(gvcf, outVcf) == gvcf + (" " + (outVcf + (" " + s2)));
    HeadWords("gvcf_combine_py", kw, CombineArgs(gvcf, outVcf));
  }

  /** The pipeline ends with the converted name, after `vcfconvert -`. */
  lemma GvcfCombineEnds(gvcf: string, outVcf: string, kw: Kwargs)
    requires PyexecReady("gvcf_combine_py", kw)
    ensures EndsWith(GvcfCombine(gvcf, outVcf, kw).value, " - " + GvcfName(outVcf))
  {
    var g := GvcfName(outVcf);
    assert " | sentieon util vcfconvert - " + g == " | sentieon util vcfconvert" + (" - " + g);
    EndsWithConcat(" | sentieon util vcfconvert", " - " + g);
    EndsWithExtend(" -", " | sentieon util vcfconvert - " + g, " - " + g);
    EndsWithExtend(outVcf, " -" + (" | sentieon util vcfconvert - " + g), " - " + g);
    EndsWithExtend(" ", outVcf + (" -" + (" | sentieon util vcfconvert - " + g)), " - " + g);
    EndsWithExtend(gvcf, " " + (outVcf + (" -" + (" | sentieon util vcfconvert - " + g))), " - " + g);
    EndsWithExtend(PyexecHead("gvcf_combine_py", kw), CombineArgs(gvcf, outVcf), " - " + g);
  }

  /** An output name ending in its only `.vcf.gz` is converted to the matching `.g.vcf.gz`. */
  lemma GvcfCombineRenames(stem: string)
    requires forall i: nat :: i < |stem| ==> !OccursAt(stem + ".vcf.gz", ".vcf.gz", i)
    ensures GvcfName(stem + ".vcf.gz") == stem + ".g.vcf.gz"
  {
    ReplaceTrailing(stem, ".vcf.gz", ".g.vcf.gz");
  }

  /**
   * Every `.vcf.gz` is converted, not just the last: the first occurrence
   * becomes `.g.vcf.gz` and the rest of the name is converted after it.
   */
  lemma GvcfCombineRenamesFirst(p: string, q: string)
    requires forall i: nat :: i < |p| ==> !OccursAt(p + ".vcf.gz" + q, ".vcf.gz", i)
    ensures GvcfName(p + ".vcf.gz" + q) == p + ".g.vcf.gz" + GvcfName(q)
  {
    ReplaceFirst(p, ".vcf.gz", ".g.vcf.gz", q);
  }

  /**
   * A name with two `.vcf.gz`, such as `d.vcf.gz/o.vcf.gz`, has both
   * converted: `d.g.vcf.gz/o.g.vcf.gz`.
   */
  lemma GvcfCombineRenamesBoth(d: string, o: string)
    requires forall i: nat :: i < |d| ==> !OccursAt(d + ".vcf.gz" + (o + ".vcf.gz"), ".vcf.gz", i)
    requires forall i: nat :: i < |o| ==> !OccursAt(o + ".vcf.gz", ".vcf.gz", i)
    ensures GvcfName(d + ".vcf.gz" + (o + ".vcf.gz")) == d + ".g.vcf.gz" + (o + ".g.vcf.gz")
  {
    GvcfCombineRenamesFirst(d, o + ".vcf.gz");
    GvcfCombineRenames(o);
  }

  /** An output name without `.vcf.gz` is passed to `vcfconvert` unchanged. */
  lemma GvcfCombineKeepsName(outVcf: string)
    requires !Contains(outVcf, ".vcf.gz")
    ensures GvcfName(outVcf) == outVcf
  {
    ReplaceAbsent(outVcf, ".vcf.gz", ".g.vcf.gz");
  }
}
