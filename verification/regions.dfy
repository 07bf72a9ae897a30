/**
 * `cmd_bedtools_subtract`: the regions left un-phased are the target
 * regions minus the phased ones. Without target regions the whole genome
 * is used. It is first written as a BED file, one row per line of the
 * reference's `.fai` index.
 *
 * The file system is a parameter: `files` maps a path to the lines Python
 * yields when iterating over the opened file. The BED file the builder
 * writes is part of its result.
 */
module Regions {
  import opened Strings
  import opened Values
  import opened Words

  /* ---------------------------------------------------------------- */
  /* One `.fai` line, one BED row                                     */
  /* ---------------------------------------------------------------- */

  /** The tab-separated columns of a row, without its closing newline. */
  function Columns(row: string): seq<string>
    requires row != [] && row[|row| - 1] == '\n'
  {
    Split(row[..|row| - 1], '\t')
  }

  /**
   * The BED row for one index line: the first two tab-separated fields of
   * the stripped line, the sequence name and its length, with 0 between
   * them as the start.
   */
  function FaiRow(line: string): (r: Result<string>)
    ensures r.Failure? ==> r.error == MissingField(line)
    ensures r.Success? ==> r.value != [] && r.value[|r.value| - 1] == '\n'
    ensures r.Success? ==> |Columns(r.value)| == 3 && Columns(r.value)[1] == "0"
  {
    var toks := Split(Strip(line), '\t');
    if |toks| < 2 then Failure(MissingField(line))
    else
      var row := toks[0] + ("\t0\t" + (toks[1] + "\n"));
      RowColumns(toks[0], toks[1]);
      Success(row)
  }

  /** A row built from two tab-free fields has exactly those fields around the 0. */
  lemma RowColumns(a: string, b: string)
    requires '\t' !in a && '\t' !in b
    ensures var row := a + ("\t0\t" + (b + "\n"));
      row != [] && row[|row| - 1] == '\n' && Columns(row) == [a, "0", b]
  {
    var row := a + ("\t0\t" + (b + "\n"));
    assert row[..|row| - 1] == a + (['\t'] + ("0" + (['\t'] + b)));
    SplitSingle(b, '\t');
    SplitWord("0", b, '\t');
    SplitWord(a, "0" + (['\t'] + b), '\t');
  }

  /** The row's columns are the line's first two fields, with 0 between them. */
  lemma FaiRowColumns(line: string)
    requires FaiRow(line).Success?
    ensures var toks := Split(Strip(line), '\t');
      |toks| >= 2 && Columns(FaiRow(line).value) == [toks[0], "0", toks[1]]
  {
    var toks := Split(Strip(line), '\t');
    RowColumns(toks[0], toks[1]);
  }

  /**
   * An index line made of at least two tab-free fields, without blanks at
   * either end, gives the row of its first two fields.
   */
  lemma FaiRowFields(fields: seq<string>)
    requires |fields| >= 2
    requires forall i :: 0 <= i < |fields| ==> '\t' !in fields[i]
    requires Join(fields, '\t') != []
    requires !IsSpace(Join(fields, '\t')[0]) && !IsSpace(Join(fields, '\t')[|Join(fields, '\t')| - 1])
    ensures FaiRow(Join(fields, '\t') + "\n") == Success(fields[0] + ("\t0\t" + (fields[1] + "\n")))
  {
    var t := Join(fields, '\t');
    StripLine(t);
    SplitJoin(fields, '\t');
  }

  /** A line without a tab has only one field, and `toks[1]` fails on it. */
  lemma FaiRowNeedsTab(line: string)
    requires '\t' !in line
    ensures FaiRow(line) == Failure(MissingField(line))
  {
    var s := Strip(line);
    var i: nat :| CutAt(line, s, i);
    forall k | 0 <= k < |s|
      ensures s[k] != '\t'
    {
      assert s[k] == line[i + k];
    }
    SplitSingle(s, '\t');
  }

  /* ---------------------------------------------------------------- */
  /* The whole index, one row per line                                */
  /* ---------------------------------------------------------------- */

  /** The rows written, and the exception that stopped the writing, if any. */
  datatype FaiScan = FaiScan(rows: seq<string>, failure: Option<Error>)

  /**
   * The rows written before the first line that has no row: every row
   * belongs to the line at its position, and a failure names the line
   * right after the last row.
   */
  predicate ScanOf(row: string -> Result<string>, lines: seq<string>, rows: seq<string>, failure: Option<Error>) {
    && |rows| <= |lines|
    && (forall k :: 0 <= k < |rows| ==> row(lines[k]) == Success(rows[k]))
    && (failure.None? <==> |rows| == |lines|)
    && (failure.Some? ==> row(lines[|rows|]) == Failure(failure.value))
  }

  /** The loop over the lines, one line at a time, turning each into a row with `row`. */
  function Scan(row: string -> Result<string>, lines: seq<string>): (s: FaiScan)
    ensures ScanOf(row, lines, s.rows, s.failure)
  {
    if lines == [] then FaiScan([], None)
    else
      match row(lines[0])
      case Failure(e) => FaiScan([], Some(e))
      case Success(r) =>
        var rest := Scan(row, lines[1..]);
        FaiScan([r] + rest.rows, rest.failure)
  }

  /** The description `ScanOf` fixes the rows and the failure. */
  lemma {:induction false} ScanDetermined(row: string -> Result<string>, lines: seq<string>,
                                          rows: seq<string>, failure: Option<Error>)
    requires ScanOf(row, lines, rows, failure)
    ensures Scan(row, lines) == FaiScan(rows, failure)
  {
    if lines == [] {
    } else if rows == [] {
      assert row(lines[0]) == Failure(failure.value);
    } else {
      assert row(lines[0]) == Success(rows[0]);
      assert ScanOf(row, lines[1..], rows[1..], failure) by {
        forall k | 0 <= k < |rows[1..]|
          ensures row(lines[1..][k]) == Success(rows[1..][k])
        {
          assert row(lines[k + 1]) == Success(rows[k + 1]);
        }
      }
      ScanDetermined(row, lines[1..], rows[1..], failure);
      assert [rows[0]] + rows[1..] == rows;
    }
  }

  /** The rows of the whole-genome BED file, from the lines of the index. */
  function ReferenceRows(lines: seq<string>): FaiScan {
    Scan(FaiRow, lines)
  }

  /**
   * The `for` loop writing the whole-genome BED file, in its imperative
   * form: row by row, until a line has no row. The builder itself goes
   * through `Scan`; this loop is kept only to show that the two agree.
   */
  method WriteRows(row: string -> Result<string>, lines: seq<string>) returns (rows: seq<string>, failure: Option<Error>)
    ensures ScanOf(row, lines, rows, failure)
    ensures Scan(row, lines) == FaiScan(rows, failure)
  {
    rows := [];
    var i := 0;
    while i < |lines|
      invariant i <= |lines| && |rows| == i
      invariant forall k :: 0 <= k < i ==> row(lines[k]) == Success(rows[k])
    {
      var r := row(lines[i]);
      if r.Failure? {
        failure := Some(r.error);
        ScanDetermined(row, lines, rows, failure);
        return;
      }
      rows := rows + [r.value];
      i := i + 1;
    }
    failure := None;
    ScanDetermined(row, lines, rows, failure);
  }

  /* ---------------------------------------------------------------- */
  /* The command                                                      */
  /* ---------------------------------------------------------------- */

  /** A file the builder wrote, with its rows in order. */
  datatype BedFile = BedFile(path: string, rows: seq<string>)

  /** The command, or the exception raised, and the whole-genome BED file if one was written. */
  datatype Subtract = Subtract(cmd: Result<string>, written: Option<BedFile>)

  /** The index of the reference: `name(kwargs["reference"]) + ".fai"`. */
  function FaiPath(kw: Kwargs): (r: Result<string>)
    ensures "reference" !in kw ==> r == Failure(KeyError("reference"))
    ensures r.Success? <==> "reference" in kw && (kw["reference"].Str? || kw["reference"].Handle?)
    ensures r.Failure? && "reference" in kw ==> r.error == TypeError("reference")
    ensures r.Success? ==> EndsWith(r.value, ".fai")
    ensures r.Success? ==> r.value[..|r.value| - 4] == PathOf(kw["reference"])
  {
    var v :- Lookup(kw, "reference");
    match Name(v)
    case Str(s) => EndsWithConcat(s, ".fai"); Success(s + ".fai")
    case _ => Failure(TypeError("reference"))
  }

  /** `bedtools subtract -a <regions> -b <phased> > <unphased>`. */
  function SubtractCmd(regions: string, phasedBed: string, unphasedBed: string): string {
    "bedtools subtract -a " + (regions + (" -b " + (phasedBed + (" > " + unphasedBed))))
  }

  /**
   * `cmd_bedtools_subtract`. Given target regions the command is built at
   * once. Without them, `kwargs["tmp_base"]` names the BED file, the file
   * is created, `kwargs["reference"]` names the index, and the rows are
   * written; an exception on the way leaves the file as far as it got.
   */
  function BedtoolsSubtract(regions: Value, phasedBed: string, unphasedBed: string,
                            kw: Kwargs, files: map<string, seq<string>>): (r: Subtract)
    ensures r.written.Some? ==> regions == NoneVal
    ensures r.cmd.Failure? ==> regions == NoneVal
    ensures r.written.Some? ==> EndsWith(r.written.value.path, "_reference.bed")
    ensures r.cmd.Success? ==> |r.cmd.value| >= 21 && r.cmd.value[..21] == "bedtools subtract -a "
    ensures r.cmd.Success? ==> EndsWith(r.cmd.value, " > " + unphasedBed)
  {
    if regions != NoneVal then
      SubtractEnds(PathOf(regions), phasedBed, unphasedBed);
      Subtract(Success(SubtractCmd(PathOf(regions), phasedBed, unphasedBed)), None)
    else
      match TextAt(kw, "tmp_base")
      case Failure(e) => Subtract(Failure(e), None)
      case Success(base) =>
        var path := base + "_reference.bed";
        EndsWithConcat(base, "_reference.bed");
        match FaiPath(kw)
        case Failure(e) => Subtract(Failure(e), Some(BedFile(path, [])))
        case Success(fai) =>
          if fai !in files then Subtract(Failure(FileNotFound(fai)), Some(BedFile(path, [])))
          else
            var scan := ReferenceRows(files[fai]);
            SubtractEnds(path, phasedBed, unphasedBed);
            var cmd := if scan.failure.Some? then Failure(scan.failure.value)
                       else Success(SubtractCmd(path, phasedBed, unphasedBed));
            Subtract(cmd, Some(BedFile(path, scan.rows)))
  }

  /** The command starts with the tool and ends with the redirection. */
  lemma SubtractEnds(regions: string, phasedBed: string, unphasedBed: string)
    ensures |SubtractCmd(regions, phasedBed, unphasedBed)| >= 21
    ensures SubtractCmd(regions, phasedBed, unphasedBed)[..21] == "bedtools subtract -a "
    ensures EndsWith(SubtractCmd(regions, phasedBed, unphasedBed), " > " + unphasedBed)
  {
    var e := " > " + unphasedBed;
    EndsWithConcat(phasedBed, e);
    EndsWithExtend(" -b ", phasedBed + e, e);
    EndsWithExtend(regions, " -b " + (phasedBed + e), e);
    EndsWithExtend("bedtools subtract -a ", regions + (" -b " + (phasedBed + e)), e);
  }

  /** Given target regions, neither `kwargs` nor any file is consulted, and nothing is written. */
  lemma SubtractIgnoresKwargs(regions: Value, phasedBed: string, unphasedBed: string,
                              kw1: Kwargs, files1: map<string, seq<string>>,
                              kw2: Kwargs, files2: map<string, seq<string>>)
    requires regions != NoneVal
    ensures BedtoolsSubtract(regions, phasedBed, unphasedBed, kw1, files1)
         == BedtoolsSubtract(regions, phasedBed, unphasedBed, kw2, files2)
    ensures BedtoolsSubtract(regions, phasedBed, unphasedBed, kw1, files1).written.None?
  {
  }

  /**
   * Subtracting from the whole genome is subtracting from the BED file
   * written for it, and that file holds one row per index line.
   */
  lemma WholeGenomeIsWrittenFile(phasedBed: string, unphasedBed: string,
                                 kw: Kwargs, files: map<string, seq<string>>)
    requires BedtoolsSubtract(NoneVal, phasedBed, unphasedBed, kw, files).cmd.Success?
    ensures var r := BedtoolsSubtract(NoneVal, phasedBed, unphasedBed, kw, files);
      && r.written.Some?
      && r.cmd == BedtoolsSubtract(Str(r.written.value.path), phasedBed, unphasedBed, kw, files).cmd
    ensures FaiPath(kw).Success? && FaiPath(kw).value in files
    ensures var rows := BedtoolsSubtract(NoneVal, phasedBed, unphasedBed, kw, files).written.value.rows;
      var lines := files[FaiPath(kw).value];
      |rows| == |lines| && forall k :: 0 <= k < |lines| ==> FaiRow(lines[k]) == Success(rows[k])
  {
  }

  /**
   * The whole-genome path fails in the order Python evaluates it: the
   * temporary base before the file is created, then the reference, the
   * index, and the first line without a row, each leaving the file as far
   * as it got.
   */
  lemma WholeGenomeErrors(phasedBed: string, unphasedBed: string,
                          kw: Kwargs, files: map<string, seq<string>>)
    ensures var r := BedtoolsSubtract(NoneVal, phasedBed, unphasedBed, kw, files);
      "tmp_base" !in kw ==> r == Subtract(Failure(KeyError("tmp_base")), None)
    ensures var r := BedtoolsSubtract(NoneVal, phasedBed, unphasedBed, kw, files);
      ("tmp_base" in kw && kw["tmp_base"].Str? && "reference" !in kw)
        ==> r == Subtract(Failure(KeyError("reference")), Some(BedFile(kw["tmp_base"].s + "_reference.bed", [])))
    ensures var r := BedtoolsSubtract(NoneVal, phasedBed, unphasedBed, kw, files);
      (r.cmd.Failure? && r.written.Some? && r.written.value.rows != [])
        ==> FaiPath(kw).Success? && FaiPath(kw).value in files
            && |r.written.value.rows| < |files[FaiPath(kw).value]|
            && FaiRow(files[FaiPath(kw).value][|r.written.value.rows|]) == Failure(r.cmd.error)
  {
  }

  /** The words of the command. */
  function SubtractArgv(regions: string, phasedBed: string, unphasedBed: string): seq<string> {
    ["bedtools", "subtract", "-a", regions, "-b", phasedBed, ">", unphasedBed]
  }

  /** The tool and its flag, word by word. */
  lemma SubtractLiteral()
    ensures "bedtools subtract -a " == "bedtools" + " " + "subtract" + " " + "-a" + " "
  {
  }

  /** The phased BED file, the redirection and the output. */
  lemma SubtractTailWords(phasedBed: string, unphasedBed: string)
    requires Blankless(phasedBed) && Blankless(unphasedBed)
    ensures Split(phasedBed + (" > " + unphasedBed), ' ') == [phasedBed, ">", unphasedBed]
  {
    Glue2(" > ", ">", unphasedBed);
    TwoWords(">", unphasedBed);
    SplitWord(phasedBed, ">" + (" " + unphasedBed), ' ');
  }

  /** The regions and the flag in front of what follows. */
  lemma SubtractMidWords(regions: string, t: string)
    requires Blankless(regions)
    ensures Split(regions + (" -b " + t), ' ') == [regions, "-b"] + Split(t, ' ')
  {
    Glue2(" -b ", "-b", t);
    SplitWord("-b", t, ' ');
    SplitWord(regions, "-b" + (" " + t), ' ');
  }

  /** With blank-free paths, the command splits into the expected words. */
  lemma SubtractWords(regions: string, phasedBed: string, unphasedBed: string)
    requires Blankless(regions) && Blankless(phasedBed) && Blankless(unphasedBed)
    ensures Split(SubtractCmd(regions, phasedBed, unphasedBed), ' ')
         == SubtractArgv(regions, phasedBed, unphasedBed)
  {
    var t := phasedBed + (" > " + unphasedBed);
    var s := regions + (" -b " + t);
    SubtractTailWords(phasedBed, unphasedBed);
    SubtractMidWords(regions, t);
    SubtractLiteral();
    ThreeWordsThen("bedtools", "subtract", "-a", s);
  }

  /**
   * Given target regions, the builder's command is `bedtools subtract -a R
   * -b P > U` word for word, with `R` the regions resolved through `name()`:
   * the phased regions are taken away from the target regions.
   */
  lemma GivenRegionsWords(regions: Value, phasedBed: string, unphasedBed: string,
                          kw: Kwargs, files: map<string, seq<string>>)
    requires regions != NoneVal
    requires Blankless(PathOf(regions)) && Blankless(phasedBed) && Blankless(unphasedBed)
    ensures BedtoolsSubtract(regions, phasedBed, unphasedBed, kw, files).cmd.Success?
    ensures Split(BedtoolsSubtract(regions, phasedBed, unphasedBed, kw, files).cmd.value, ' ')
         == SubtractArgv(PathOf(regions), phasedBed, unphasedBed)
  {
    SubtractWords(PathOf(regions), phasedBed, unphasedBed);
  }

  /**
   * Without target regions, a successful command subtracts the phased
   * regions from the whole-genome BED file it wrote, word for word.
   */
  lemma WholeGenomeWords(phasedBed: string, unphasedBed: string,
                         kw: Kwargs, files: map<string, seq<string>>)
    requires BedtoolsSubtract(NoneVal, phasedBed, unphasedBed, kw, files).cmd.Success?
    requires "tmp_base" in kw && !kw["tmp_base"].Handle?
    requires Blankless(Render("tmp_base", kw["tmp_base"]).value + "_reference.bed")
    requires Blankless(phasedBed) && Blankless(unphasedBed)
    ensures BedtoolsSubtract(NoneVal, phasedBed, unphasedBed, kw, files).written.Some?
    ensures Split(BedtoolsSubtract(NoneVal, phasedBed, unphasedBed, kw, files).cmd.value, ' ')
         == SubtractArgv(Render("tmp_base", kw["tmp_base"]).value + "_reference.bed", phasedBed, unphasedBed)
  {
    var path := BedtoolsSubtract(NoneVal, phasedBed, unphasedBed, kw, files).written.value.path;
    assert path == Render("tmp_base", kw["tmp_base"]).value + "_reference.bed";
    WholeGenomeIsWrittenFile(phasedBed, unphasedBed, kw, files);
    GivenRegionsWords(Str(path), phasedBed, unphasedBed, kw, files);
  }
}
