/**
 * `cmd_sentieon_driver`: the `sentieon driver` prefix every stage command
 * starts with, and the two ways the stage builders call it.
 */
module Driver {
  import opened Strings
  import opened Values

  /** The fixed head: thread count and reference, ending in a blank. */
  function Head(cores: string, reference: string): string {
    "sentieon driver -t " + cores + " -r " + reference + " "
  }

  /** The interval clause is emitted when `bed_key` is given and names a non-None value. */
  predicate HasInterval(bedKey: Option<string>, kw: Kwargs) {
    bedKey.Some? && Get(kw, bedKey.value) != NoneVal
  }

  /** The read filter is emitted when `kwargs.get("read-filter")` is truthy. */
  predicate HasReadFilter(kw: Kwargs) {
    Truthy(Get(kw, "read-filter"))
  }

  /** ` --interval B`, or nothing. */
  function IntervalClause(bedKey: Option<string>, kw: Kwargs): (c: string)
    ensures HasInterval(bedKey, kw) ==> c == " --interval " + PathOf(kw[bedKey.value])
    ensures !HasInterval(bedKey, kw) ==> c == ""
  {
    if HasInterval(bedKey, kw) then " --interval " + PathOf(kw[bedKey.value]) else ""
  }

  /** The read filter cannot be rendered when it is a handle. */
  predicate ReadFilterRenders(kw: Kwargs) {
    !(HasReadFilter(kw) && kw["read-filter"].Handle?)
  }

  /** ` --read_filter F`, or nothing. */
  function ReadFilterClause(kw: Kwargs): (c: string)
    requires ReadFilterRenders(kw)
    ensures HasReadFilter(kw) ==> c == " --read_filter " + Render("read-filter", kw["read-filter"]).value
    ensures !HasReadFilter(kw) ==> c == ""
  {
    if HasReadFilter(kw) then " --read_filter " + Render("read-filter", kw["read-filter"]).value else ""
  }

  /** ` -i S`, or nothing when the sample input is skipped. */
  function SampleClause(skipSampleInput: bool, kw: Kwargs): (c: string)
    requires skipSampleInput || "sample_input" in kw
    ensures skipSampleInput ==> c == ""
    ensures !skipSampleInput ==> c == " -i " + PathOf(kw["sample_input"])
  {
    if skipSampleInput then "" else " -i " + PathOf(kw["sample_input"])
  }

  /** Everything `cmd_sentieon_driver` needs from `kwargs` to succeed. */
  predicate DriverReady(skipSampleInput: bool, kw: Kwargs) {
    && ReadFilterRenders(kw)
    && "cores" in kw && !kw["cores"].Handle?
    && "reference" in kw
    && (skipSampleInput || "sample_input" in kw)
  }

  /**
   * The exception the driver raises first, in the order Python evaluates
   * the body: read filter, `cores`, `reference`, then `sample_input`.
   */
  function DriverError(skipSampleInput: bool, kw: Kwargs): (e: Error)
    requires !DriverReady(skipSampleInput, kw)
    ensures e.KeyError? ==> e.key !in kw
    ensures e.Unrendered? ==> e.key in kw && kw[e.key].Handle?
    ensures e.KeyError? || e.Unrendered?
  {
    if !ReadFilterRenders(kw) then Unrendered("read-filter")
    else if "cores" !in kw then KeyError("cores")
    else if kw["cores"].Handle? then Unrendered("cores")
    else if "reference" !in kw then KeyError("reference")
    else KeyError("sample_input")
  }

  /** The head of a driver command built from `kw`. */
  function HeadOf(kw: Kwargs): string
    requires "cores" in kw && !kw["cores"].Handle? && "reference" in kw
  {
    Head(Render("cores", kw["cores"]).value, PathOf(kw["reference"]))
  }

  /**
   * `cmd_sentieon_driver(bed_key, skip_sample_input, **kw)`: the head,
   * then the interval clause, then the sample clause, then the read filter.
   */
  function SentieonDriver(bedKey: Option<string>, skipSampleInput: bool, kw: Kwargs): (r: Result<string>)
    ensures r.Success? <==> DriverReady(skipSampleInput, kw)
    ensures r.Failure? ==> r.error == DriverError(skipSampleInput, kw)
  {
    if DriverReady(skipSampleInput, kw) then
      Success(HeadOf(kw) + IntervalClause(bedKey, kw) + SampleClause(skipSampleInput, kw) + ReadFilterClause(kw))
    else Failure(DriverError(skipSampleInput, kw))
  }

  /**
   * The driver fails on the first key it cannot use, in the order Python
   * evaluates the body: a read filter that is a handle fails before any
   * key is looked up, a missing or handle `cores` before `reference`, and
   * `sample_input` last.
   */
  lemma DriverErrorOrder(bedKey: Option<string>, skipSampleInput: bool, kw: Kwargs)
    ensures !ReadFilterRenders(kw) ==> SentieonDriver(bedKey, skipSampleInput, kw) == Failure(Unrendered("read-filter"))
    ensures ReadFilterRenders(kw) && "cores" !in kw ==> SentieonDriver(bedKey, skipSampleInput, kw) == Failure(KeyError("cores"))
    ensures ReadFilterRenders(kw) && "cores" in kw && kw["cores"].Handle?
      ==> SentieonDriver(bedKey, skipSampleInput, kw) == Failure(Unrendered("cores"))
    ensures ReadFilterRenders(kw) && "cores" in kw && !kw["cores"].Handle? && "reference" !in kw
      ==> SentieonDriver(bedKey, skipSampleInput, kw) == Failure(KeyError("reference"))
    ensures ReadFilterRenders(kw) && "cores" in kw && !kw["cores"].Handle? && "reference" in kw
      && !skipSampleInput && "sample_input" !in kw
      ==> SentieonDriver(bedKey, skipSampleInput, kw) == Failure(KeyError("sample_input"))
  {
  }

  /**
   * `cmd_sentieon_driver(bed_key=..., skip_sample_input=..., **kw)`: Python
   * refuses a keyword given twice before the driver runs.
   */
  function DriverCall(bedKey: Option<string>, skipSampleInput: bool, kw: Kwargs): (r: Result<string>)
    ensures "bed_key" in kw ==> r == Failure(DuplicateKeyword("bed_key"))
    ensures "skip_sample_input" in kw && "bed_key" !in kw ==> r == Failure(DuplicateKeyword("skip_sample_input"))
    ensures "bed_key" !in kw && "skip_sample_input" !in kw ==> r == SentieonDriver(bedKey, skipSampleInput, kw)
  {
    if "bed_key" in kw then Failure(DuplicateKeyword("bed_key"))
    else if "skip_sample_input" in kw then Failure(DuplicateKeyword("skip_sample_input"))
    else SentieonDriver(bedKey, skipSampleInput, kw)
  }

  /** The bed key as the driver sees it once `skip_sample_input` has left the bag. */
  function PositionalBedKey(bedKey: Option<string>): Option<string> {
    if bedKey == Some("skip_sample_input") then None else bedKey
  }

  /**
   * `cmd_sentieon_driver(bed_key, **kw)`: `bed_key` is positional, so a
   * `"bed_key"` entry collides, while a `"skip_sample_input"` entry is
   * taken as that parameter (by truthiness) and leaves the bag; the
   * driver reads no other key that could tell the difference.
   */
  function DriverPositional(bedKey: Option<string>, kw: Kwargs): (r: Result<string>)
    ensures "bed_key" in kw ==> r == Failure(DuplicateKeyword("bed_key"))
    ensures "bed_key" !in kw && "skip_sample_input" !in kw ==> r == SentieonDriver(bedKey, false, kw)
  {
    if "bed_key" in kw then Failure(DuplicateKeyword("bed_key"))
    else SentieonDriver(PositionalBedKey(bedKey), Truthy(Get(kw, "skip_sample_input")), kw)
  }

  /** DriverPositional is Python's binding: the driver runs on the bag without `skip_sample_input`. */
  lemma PositionalBinding(bedKey: Option<string>, kw: Kwargs)
    requires "bed_key" !in kw
    ensures DriverPositional(bedKey, kw)
      == SentieonDriver(bedKey, Truthy(Get(kw, "skip_sample_input")), kw - {"skip_sample_input"})
  {
    var rest := kw - {"skip_sample_input"};
    var skip := Truthy(Get(kw, "skip_sample_input"));
    assert HasReadFilter(rest) == HasReadFilter(kw);
    assert DriverReady(skip, rest) == DriverReady(skip, kw);
    assert HasInterval(bedKey, rest) == HasInterval(PositionalBedKey(bedKey), kw);
    if DriverReady(skip, kw) {
      assert HeadOf(rest) == HeadOf(kw);
      assert IntervalClause(bedKey, rest) == IntervalClause(PositionalBedKey(bedKey), kw);
      assert SampleClause(skip, rest) == SampleClause(skip, kw);
      assert ReadFilterClause(rest) == ReadFilterClause(kw);
    } else {
      assert DriverError(skip, rest) == DriverError(skip, kw);
    }
  }

  /**
   * Without a `skip_sample_input` entry, the keyword call with the sample
   * read and the positional call build the same command or fail alike.
   */
  lemma KeywordMatchesPositional(bedKey: Option<string>, kw: Kwargs)
    requires "skip_sample_input" !in kw
    ensures DriverCall(bedKey, false, kw) == DriverPositional(bedKey, kw)
  {
    if "bed_key" !in kw {
      PositionalBinding(bedKey, kw);
      assert kw - {"skip_sample_input"} == kw;
    }
  }

  /* ---------------------------------------------------------------- */
  /* Clause order and omission                                        */
  /* ---------------------------------------------------------------- */

  /** Without a usable `bed_key` the interval clause leaves no trace. */
  lemma IntervalOmitted(bedKey: Option<string>, skipSampleInput: bool, kw: Kwargs)
    requires !HasInterval(bedKey, kw)
    ensures SentieonDriver(bedKey, skipSampleInput, kw) == SentieonDriver(None, skipSampleInput, kw)
  {
  }

  /** With a usable `bed_key` the interval clause sits right after the head. */
  lemma IntervalAfterHead(bedKey: Option<string>, skipSampleInput: bool, kw: Kwargs)
    requires HasInterval(bedKey, kw)
    requires DriverReady(skipSampleInput, kw)
    ensures var head, rest := HeadOf(kw), SampleClause(skipSampleInput, kw) + ReadFilterClause(kw);
      && SentieonDriver(None, skipSampleInput, kw) == Success(head + rest)
      && SentieonDriver(bedKey, skipSampleInput, kw) == Success(head + (" --interval " + PathOf(kw[bedKey.value])) + rest)
  {
    var h, s, f := HeadOf(kw), SampleClause(skipSampleInput, kw), ReadFilterClause(kw);
    assert h + "" == h;
    Assoc(h, s, f);
    Assoc(h + IntervalClause(bedKey, kw), s, f);
  }

  /** The sample clause sits between the interval clause and the read filter. */
  lemma SampleBeforeReadFilter(bedKey: Option<string>, kw: Kwargs)
    requires DriverReady(false, kw)
    ensures var before, after := HeadOf(kw) + IntervalClause(bedKey, kw), ReadFilterClause(kw);
      && SentieonDriver(bedKey, false, kw) == Success(before + (" -i " + PathOf(kw["sample_input"])) + after)
      && SentieonDriver(bedKey, true, kw) == Success(before + after)
  {
    var before := HeadOf(kw) + IntervalClause(bedKey, kw);
    assert before + "" == before;
  }

  /** The read filter is appended last, to the command built without it. */
  lemma ReadFilterLast(bedKey: Option<string>, skipSampleInput: bool, kw: Kwargs)
    requires DriverReady(skipSampleInput, kw)
    requires bedKey != Some("read-filter")
    ensures SentieonDriver(bedKey, skipSampleInput, kw - {"read-filter"}).Success?
    ensures SentieonDriver(bedKey, skipSampleInput, kw).value
      == SentieonDriver(bedKey, skipSampleInput, kw - {"read-filter"}).value + ReadFilterClause(kw)
  {
    var without := kw - {"read-filter"};
    assert !HasReadFilter(without);
    assert IntervalClause(bedKey, without) == IntervalClause(bedKey, kw);
    assert HeadOf(without) == HeadOf(kw);
    assert SampleClause(skipSampleInput, without) == SampleClause(skipSampleInput, kw);
  }

  /** Every successful driver command starts with the head. */
  lemma DriverStartsWithHead(bedKey: Option<string>, skipSampleInput: bool, kw: Kwargs)
    requires DriverReady(skipSampleInput, kw)
    ensures HeadOf(kw) <= SentieonDriver(bedKey, skipSampleInput, kw).value
  {
    var h, i, s, f := HeadOf(kw), IntervalClause(bedKey, kw), SampleClause(skipSampleInput, kw), ReadFilterClause(kw);
    Assoc(h, i, s);
    Assoc(h, i + s, f);
  }

  /** A read filter, when there is one, ends the driver command. */
  lemma DriverEndsWithReadFilter(bedKey: Option<string>, skipSampleInput: bool, kw: Kwargs)
    requires DriverReady(skipSampleInput, kw)
    requires HasReadFilter(kw)
    ensures EndsWith(SentieonDriver(bedKey, skipSampleInput, kw).value,
                     " --read_filter " + Render("read-filter", kw["read-filter"]).value)
  {
    EndsWithConcat(HeadOf(kw) + IntervalClause(bedKey, kw) + SampleClause(skipSampleInput, kw), ReadFilterClause(kw));
  }

  /** Without a read filter, the sample clause (when not skipped) ends the command. */
  lemma DriverEndsWithSample(bedKey: Option<string>, kw: Kwargs)
    requires DriverReady(false, kw)
    requires !HasReadFilter(kw)
    ensures EndsWith(SentieonDriver(bedKey, false, kw).value, " -i " + PathOf(kw["sample_input"]))
  {
    var h, i, s := HeadOf(kw), IntervalClause(bedKey, kw), SampleClause(false, kw);
    assert h + i + s + "" == h + i + s;
    EndsWithConcat(h + i, s);
  }

  /** With neither sample nor read filter, nothing follows the interval clause. */
  lemma DriverEndsWithInterval(bedKey: Option<string>, kw: Kwargs)
    requires DriverReady(true, kw)
    requires !HasReadFilter(kw)
    ensures SentieonDriver(bedKey, true, kw).value == HeadOf(kw) + IntervalClause(bedKey, kw)
  {
    var h, i := HeadOf(kw), IntervalClause(bedKey, kw);
    assert h + i + "" + "" == h + i;
  }

  /** With a usable `bed_key`, every driver command starts with the head and the interval. */
  lemma DriverStartsWithInterval(bedKey: Option<string>, skipSampleInput: bool, kw: Kwargs)
    requires HasInterval(bedKey, kw)
    requires DriverReady(skipSampleInput, kw)
    ensures HeadOf(kw) + " --interval " + PathOf(kw[bedKey.value]) <= SentieonDriver(bedKey, skipSampleInput, kw).value
  {
    var h, i, s, f := HeadOf(kw), IntervalClause(bedKey, kw), SampleClause(skipSampleInput, kw), ReadFilterClause(kw);
    Assoc(h, " --interval ", PathOf(kw[bedKey.value]));
    PrefixExtend(h + i, h + i, s);
    PrefixExtend(h + i, h + i + s, f);
  }
}
