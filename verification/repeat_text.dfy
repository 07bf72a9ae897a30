/**
 * The literal text `cmd_repeat_model` appends after the driver prefix: the
 * phased read-filter clause and the fixed RepeatModel hyperparameters,
 * together with the words a shell splits them into. Each literal is
 * compared with its words in a lemma of its own.
 */
module RepeatModelText {
  import opened Strings
  import opened Words

  /** The phased read filter's argument: the phased VCF extension and the tag selection. */
  function PhasedFilterArg(phasedExt: string): string {
    "PhasedReadFilter,phased_vcf=" + phasedExt + ",phase_select=tag"
  }

  /** The phased read-filter clause, as the source's two appends write it. */
  function PhasedFilterClause(phasedExt: string): string {
    " --read_filter " + "PhasedReadFilter,phased_vcf=" + phasedExt + ",phase_select=tag "
  }

  /** The four lines of fixed RepeatModel hyperparameters, written word by word. */
  const AlgoLine: string := "--algo " + "RepeatModel " + "--phased " + "--min_map_qual " + "1 "
  const GroupLine: string := "--min_group_count " + "10000 "
  const MaskLine: string := "--read_flag_mask " + "drop=supplementary " + "--repeat_extension " + "5 "
  const RepeatLine: string := "--max_repeat_unit_size " + "2 " + "--min_repeat_count " + "6 "

  /** The fixed hyperparameters, in the order they are emitted. */
  const RepeatModelFlags: string := AlgoLine + GroupLine + MaskLine + RepeatLine

  /** The words of the fixed hyperparameters. */
  const RepeatModelArgv: seq<string> :=
    ["--algo", "RepeatModel", "--phased", "--min_map_qual", "1",
     "--min_group_count", "10000",
     "--read_flag_mask", "drop=supplementary", "--repeat_extension", "5",
     "--max_repeat_unit_size", "2", "--min_repeat_count", "6"]

  /** A word followed by a blank, in front of the rest. */
  lemma WordThen(lit: string, w: string, rest: string)
    requires lit == w + " " && Blankless(w)
    ensures Split(lit + rest, ' ') == [w] + Split(rest, ' ')
  {
    assert lit + rest == w + ([' '] + rest);
    SplitWord(w, rest, ' ');
  }

  /** Two words, each written with its blank, in front of the rest. */
  lemma TwoThen(la: string, lb: string, a: string, b: string, rest: string)
    requires la == a + " " && lb == b + " "
    requires Blankless(a) && Blankless(b)
    ensures Split(la + lb + rest, ' ') == [a, b] + Split(rest, ' ')
  {
    Assoc(la, lb, rest);
    WordThen(lb, b, rest);
    WordThen(la, a, lb + rest);
  }

  /** Four words, each written with its blank, in front of the rest. */
  lemma FourThen(la: string, lb: string, lc: string, ld: string, a: string, b: string, c: string, d: string, rest: string)
    requires la == a + " " && lb == b + " " && lc == c + " " && ld == d + " "
    requires Blankless(a) && Blankless(b) && Blankless(c) && Blankless(d)
    ensures Split(la + lb + lc + ld + rest, ' ') == [a, b, c, d] + Split(rest, ' ')
  {
    TwoThen(lc, ld, c, d, rest);
    Assoc(la + lb, lc + ld, rest);
    Assoc(la + lb, lc, ld);
    TwoThen(la, lb, a, b, lc + ld + rest);
  }

  /** Five words, each written with its blank, in front of the rest. */
  lemma FiveThen(la: string, lb: string, lc: string, ld: string, le: string,
                 a: string, b: string, c: string, d: string, e: string, rest: string)
    requires la == a + " " && lb == b + " " && lc == c + " " && ld == d + " " && le == e + " "
    requires Blankless(a) && Blankless(b) && Blankless(c) && Blankless(d) && Blankless(e)
    ensures Split(la + lb + lc + ld + le + rest, ' ') == [a, b, c, d, e] + Split(rest, ' ')
  {
    FourThen(lb, lc, ld, le, b, c, d, e, rest);
    PeelFirst(la, lb, lc, ld, le, rest);
    WordThen(la, a, lb + lc + ld + le + rest);
  }

  /** Re-associates five pieces and the rest so that the first piece stands alone. */
  lemma PeelFirst(la: string, lb: string, lc: string, ld: string, le: string, rest: string)
    ensures la + lb + lc + ld + le + rest == la + (lb + lc + ld + le + rest)
  {
  }

  /* ---------------------------------------------------------------- */
  /* The read-filter clause                                           */
  /* ---------------------------------------------------------------- */

  /** A blank, a flag and its blank, then an argument written in pieces and its blank. */
  lemma FlagArgThen(lead: string, pre: string, mid: string, post: string, flag: string, tag: string, rest: string)
    requires lead == " " + (flag + " ") && post == tag + " "
    requires Blankless(flag) && Blankless(pre + mid + tag)
    ensures BlankLed(lead + pre + mid + post + rest)
    ensures Split((lead + pre + mid + post + rest)[1..], ' ') == [flag, pre + mid + tag] + Split(rest, ' ')
  {
    var arg := pre + mid + tag;
    assert lead + pre + mid + post + rest == " " + ((flag + " ") + ((arg + " ") + rest));
    WordThen(arg + " ", arg, rest);
    WordThen(flag + " ", flag, (arg + " ") + rest);
  }

  /** With a blank-free extension, the clause splits into the flag and its argument. */
  lemma FilterClauseWords(phasedExt: string, rest: string)
    requires Blankless(phasedExt)
    ensures BlankLed(PhasedFilterClause(phasedExt) + rest)
    ensures Split((PhasedFilterClause(phasedExt) + rest)[1..], ' ')
      == ["--read_filter", PhasedFilterArg(phasedExt)] + Split(rest, ' ')
  {
    FlagArgThen(" --read_filter ", "PhasedReadFilter,phased_vcf=", phasedExt, ",phase_select=tag ",
                "--read_filter", ",phase_select=tag", rest);
  }

  /* ---------------------------------------------------------------- */
  /* The fixed hyperparameters, one source line at a time             */
  /* ---------------------------------------------------------------- */

  /** The first line of the fixed flags, word by word. */
  lemma AlgoLineWords(rest: string)
    ensures Split(AlgoLine + rest, ' ') == ["--algo", "RepeatModel", "--phased", "--min_map_qual", "1"] + Split(rest, ' ')
  {
    FiveThen("--algo ", "RepeatModel ", "--phased ", "--min_map_qual ", "1 ",
             "--algo", "RepeatModel", "--phased", "--min_map_qual", "1", rest);
  }

  /** The second line of the fixed flags, word by word. */
  lemma GroupLineWords(rest: string)
    ensures Split(GroupLine + rest, ' ') == ["--min_group_count", "10000"] + Split(rest, ' ')
  {
    TwoThen("--min_group_count ", "10000 ", "--min_group_count", "10000", rest);
  }

  /** The third line of the fixed flags, word by word. */
  lemma MaskLineWords(rest: string)
    ensures Split(MaskLine + rest, ' ')
      == ["--read_flag_mask", "drop=supplementary", "--repeat_extension", "5"] + Split(rest, ' ')
  {
    FourThen("--read_flag_mask ", "drop=supplementary ", "--repeat_extension ", "5 ",
             "--read_flag_mask", "drop=supplementary", "--repeat_extension", "5", rest);
  }

  /** The fourth line of the fixed flags, word by word. */
  lemma RepeatLineWords(rest: string)
    ensures Split(RepeatLine + rest, ' ')
      == ["--max_repeat_unit_size", "2", "--min_repeat_count", "6"] + Split(rest, ' ')
  {
    FourThen("--max_repeat_unit_size ", "2 ", "--min_repeat_count ", "6 ",
             "--max_repeat_unit_size", "2", "--min_repeat_count", "6", rest);
  }

  /** Re-associates the four lines and the model path so that they can be split one line at a time. */
  lemma LinesRegroup(l1: string, l2: string, l3: string, l4: string, model: string)
    ensures l1 + l2 + l3 + l4 + model == l1 + (l2 + (l3 + (l4 + model)))
  {
  }

  /** The four lines' words make up the flag words. */
  lemma ArgvParts(model: string)
    ensures ["--algo", "RepeatModel", "--phased", "--min_map_qual", "1"]
      + (["--min_group_count", "10000"]
      + (["--read_flag_mask", "drop=supplementary", "--repeat_extension", "5"]
      + (["--max_repeat_unit_size", "2", "--min_repeat_count", "6"] + [model])))
      == RepeatModelArgv + [model]
  {
  }

  /** The fixed flags followed by a blank-free model path split into the flag words and the path. */
  lemma FlagsWords(model: string)
    requires Blankless(model)
    ensures Split(RepeatModelFlags + model, ' ') == RepeatModelArgv + [model]
  {
    var r3 := MaskLine + (RepeatLine + model);
    AlgoLineWords(GroupLine + r3);
    GroupLineWords(r3);
    MaskLineWords(RepeatLine + model);
    RepeatLineWords(model);
    SplitSingle(model, ' ');
    LinesRegroup(AlgoLine, GroupLine, MaskLine, RepeatLine, model);
    ArgvParts(model);
  }
}
