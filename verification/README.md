# sentieon-cli command strings, in Dafny

This project models the command-string builders of `sentieon_cli`:

- `cmd_sentieon_driver`, the `sentieon driver -t N -r REF` prefix with its interval, sample and read-filter clauses;
- the stage builders that extend it:
  - `cmd_variant_phaser`
  - `cmd_repeat_model`
  - `cmd_model_apply`
  - `cmd_algo_dnascope`
- the `cmd_dnascope_hp` fragment;
- the `sentieon pyexec` builders:
  - haploid patch, patch and merge of `vcf_mod.py`
  - the gVCF combine pipeline
- `cmd_bedtools_subtract`, including the whole-genome BED file it writes from the reference's `.fai` index;
- the `name()` helper.

The keyword bag `kwargs` is a `map<string, Value>`. A value is text, an integer, an open file handle known by its `.name`, or `None`.

Every Python exception a builder can raise is a `Failure` carrying an `Error`:

- `KeyError`, for a missing key;
- `AttributeError`, for `.name` on text;
- `DuplicateKeyword`, for `f(k=..., **kwargs)` with `k` in `kwargs`;
- `UnknownTech`, for the `assert` on the sequencing technology;
- `MissingField`, for `toks[1]` on a one-field line;
- `TypeError`, for `name(x) + ".fai"` on a non-text value;
- `FileNotFound`.

Failures occur in the order Python evaluates the body.

The file system is a parameter: `files` maps a path to the lines Python yields when it iterates over that file. The BED file `cmd_bedtools_subtract` writes is part of its result.

The Dafny builds strings with right-nested `+`. This is the same value as the source's sequence of `+=`, and the lemmas regroup it where needed.

The fixed RepeatModel flags are written one word at a time, each word with the blank that follows it. Joined, they are the text of the four literals that `cmd_repeat_model` appends at lines 73-76.

Partners used to state what a command means:

- the words a shell splits it into (`Split(cmd, ' ')` against an explicit word list);
- the clause a lemma locates at the start or the end of the command;
- the same builder on a changed bag, so that a clause is present exactly when its key is;
- for the two builders whose code as written misbehaves, the corrected builder (see Findings).

The docstring examples are proved as lemmas in `Doctests`. Their expected strings are written as a concatenation of the clauses that make them up. The haplotype template `"out_hap%d_%stmp.vcf.gz"` enters those lemmas as a parameter fixed by the precondition `ExampleTemplate`.

Modules:

- `Strings`: decimal rendering, `replace`, `split`, `strip`, prefix/suffix/substring predicates;
- `Values`: the bag, `name()`, rendering;
- `Words`: word-split lemmas;
- `Driver`;
- `RepeatModelText`: the read-filter clause and the fixed flags `cmd_repeat_model` appends, with their word-split lemmas;
- `Stages`;
- `Pyexec`;
- `Regions`: `cmd_bedtools_subtract`;
- `Doctests`.

## Model

| member | source | states |
|---|---|---|
| Values.Name | sentieon_cli/command_strings.py:93-97 | `name()` never returns a handle: a handle becomes its file name, any other value is returned unchanged |
| Values.NameIdempotent | sentieon_cli/command_strings.py:93-97 | `name(name(v)) == name(v)` |
| Values.Render | sentieon_cli/command_strings.py:135 | an f-string field fails only on a handle; text renders as itself and `None` as `None`; a non-negative integer renders as digits whose decimal value is that integer |
| Values.PathOf | sentieon_cli/command_strings.py:126 | `f"{name(v)}"` is the text, the handle's file name, the integer's decimal digits, or `None` |
| Values.PathOfRenders | sentieon_cli/command_strings.py:126 | rendering after `name()` never fails and gives PathOf |
| Strings.NatToString | sentieon_cli/command_strings.py:135 | `str(n)` is a non-empty run of digits with no leading zero |
| Strings.DecimalRoundTrip | sentieon_cli/command_strings.py:135 | reading `str(n)` back as a decimal number gives `n` |
| Strings.IntToString | sentieon_cli/command_strings.py:33 | `str(i)` is non-empty, all digits for `i >= 0`, and starts with `-` for a negative `i` |
| Strings.Split | sentieon_cli/command_strings.py:54 | `split(sep)` gives at least one field and no field contains `sep` |
| Strings.JoinSplit | sentieon_cli/command_strings.py:54 | joining the fields of `split(sep)` with `sep` gives back the input |
| Strings.SplitJoin | sentieon_cli/command_strings.py:54 | splitting a join of one or more `sep`-free fields gives back those fields |
| Strings.Strip | sentieon_cli/command_strings.py:54 | `strip()` is a slice of its input with only whitespace around it, and the slice neither starts nor ends with whitespace |
| Strings.StripLine | sentieon_cli/command_strings.py:54 | stripping a line whose text has non-blank ends removes exactly the newline |
| Strings.ReplaceAll | sentieon_cli/command_strings.py:193-195 | `replace(pat, pat)` returns its input, and a replacement as long as the pattern keeps the length |
| Strings.ReplaceFirst | sentieon_cli/command_strings.py:193-195 | at the first occurrence of the pattern, `replace` puts the replacement there and carries on with the rest of the text |
| Strings.ReplaceAbsent | sentieon_cli/command_strings.py:193-195 | `replace` with no occurrence of the pattern returns its input |
| Strings.ReplaceTrailing | sentieon_cli/command_strings.py:193-195 | when the pattern occurs only as the suffix, `replace` swaps exactly that suffix |
| Strings.ReplaceKeepsAbsent | sentieon_cli/command_strings.py:193-195 | a character missing from both the input and the replacement is missing from the result |
| Words.NeedleEndsWord | sentieon_cli/command_strings.py:158-160 | if `s` contains `u + " "` for a blank-free `u`, then some word of `s` other than the last ends with `u` |
| Driver.DriverError | sentieon_cli/command_strings.py:129-139 | a failing driver raises either a `KeyError` naming a key that is missing, or `Unrendered` naming a key that holds a handle |
| Driver.DriverErrorOrder | sentieon_cli/command_strings.py:129-139 | the driver fails on the first unusable key in Python's order: a handle as `read-filter` before any lookup, then `cores` (missing, then handle), then `reference`, then `sample_input` |
| Driver.SentieonDriver | sentieon_cli/command_strings.py:100-141 | the driver succeeds exactly when every key it reads is present and renders; otherwise it fails with DriverError |
| Driver.DriverPositional | sentieon_cli/command_strings.py:243 | with positional `bed_key`, only a `bed_key` entry collides; without `skip_sample_input` in the bag this is the driver that reads the sample |
| Driver.PositionalBinding | sentieon_cli/command_strings.py:100-104 | a positional call equals the driver run on the bag without `skip_sample_input`, with that flag taken from the bag by truthiness |
| Driver.KeywordMatchesPositional | sentieon_cli/command_strings.py:100-104 | with no `skip_sample_input` in the bag, the keyword call that reads the sample (`cmd_sentieon_driver(bed_key=B, skip_sample_input=False, **kw)`) and the positional call (`cmd_sentieon_driver(B, **kw)`) give the same command or the same error |
| Driver.IntervalOmitted | sentieon_cli/command_strings.py:125-128 | without a usable `bed_key` the command equals the one built with no `bed_key` |
| Driver.IntervalAfterHead | sentieon_cli/command_strings.py:134-137 | the interval clause is inserted right after the head, and nothing else changes |
| Driver.SampleBeforeReadFilter | sentieon_cli/command_strings.py:137-140 | the sample clause is inserted between the interval and the read filter, and skipping it removes only it |
| Driver.ReadFilterLast | sentieon_cli/command_strings.py:140 | the command is the command built without `read-filter`, followed by the read-filter clause |
| Driver.DriverStartsWithHead | sentieon_cli/command_strings.py:134-136 | every driver command starts with `sentieon driver -t N -r REF ` |
| Driver.DriverEndsWithReadFilter | sentieon_cli/command_strings.py:140 | a read filter, when given, ends the command |
| Driver.DriverEndsWithSample | sentieon_cli/command_strings.py:138-140 | without a read filter, the sample clause ends the command |
| Driver.DriverEndsWithInterval | sentieon_cli/command_strings.py:137-140 | with neither sample nor read filter, the command is the head plus the interval clause |
| Driver.DriverStartsWithInterval | sentieon_cli/command_strings.py:125-137 | with a usable `bed_key`, the command starts with the head followed by ` --interval NAME` |
| Stages.VariantPhaser | sentieon_cli/command_strings.py:20-37 | the phaser succeeds exactly when the driver (no interval, with sample) succeeds and the depth renders; driver failures pass through; success extends the driver command |
| Stages.PhaserWords | sentieon_cli/command_strings.py:30-36 | with blank-free arguments, the command after the driver splits into `--algo VariantPhaser -v VCF --max_depth D --out_bed BED --out_ext EXT OUT` and a final empty word, where `D` is the rendered `phase_max_depth` |
| Stages.PhaserStoredDepth | sentieon_cli/command_strings.py:33 | a stored `phase_max_depth` is the depth emitted, and a stored `None` gives `--max_depth None ` |
| Stages.PhaserEndsWithOutput | sentieon_cli/command_strings.py:34-36 | the phaser command ends with `--out_ext EXT VCF ` |
| Stages.RenderThousand | sentieon_cli/command_strings.py:33 | the default depth renders as `1000` |
| Stages.PhaserTailHasDepth | sentieon_cli/command_strings.py:33 | the phaser command contains `--max_depth D ` for the rendered depth |
| Stages.PhaserDefaultDepth | sentieon_cli/command_strings.py:33 | without `phase_max_depth` the phaser succeeds whenever its driver does, and contains `--max_depth 1000 ` |
| Stages.RepeatModelTail | sentieon_cli/command_strings.py:71-77 | the text after the driver ends with the fixed RepeatModel flags followed by the model path |
| RepeatModelText.FilterClauseWords | sentieon_cli/command_strings.py:71-72 | with a blank-free extension, the phased read-filter clause is a blank followed by the words `--read_filter` and `PhasedReadFilter,phased_vcf=EXT,phase_select=tag` |
| RepeatModelText.FlagsWords | sentieon_cli/command_strings.py:73-77 | the fixed flags followed by a blank-free model path split into the fifteen words `--algo RepeatModel --phased --min_map_qual 1 --min_group_count 10000 --read_flag_mask drop=supplementary --repeat_extension 5 --max_repeat_unit_size 2 --min_repeat_count 6` and the path |
| Stages.RepeatModelTailWords | sentieon_cli/command_strings.py:71-77 | with a blank-free extension and model path, the text after the driver splits into `--read_filter PhasedReadFilter,phased_vcf=EXT,phase_select=tag`, the fifteen fixed flag words, and the model path |
| Stages.RepeatModel | sentieon_cli/command_strings.py:62-78 | `phased_bed` is stored before the driver runs and stays even on failure; on failure that store is the only change to the bag; `repeat_model` is added exactly on success and is `TMP/out_repeat.model`; no other key changes; success iff the driver and `tmp_base` succeed |
| Stages.RecordModel | sentieon_cli/command_strings.py:70-77 | once the driver succeeded, `tmp_base` decides success; a failure leaves the bag unchanged |
| Stages.RepeatModelParts | sentieon_cli/command_strings.py:66-77 | a successful command is the driver (interval `phased_bed`, with sample) followed by the RepeatModel text |
| Stages.RepeatModelOnPhasedRegions | sentieon_cli/command_strings.py:66-69 | the repeat model is always restricted to the phased BED file: the command starts with the head and ` --interval PHASED_BED` |
| Stages.RepeatModelEndsWithFlags | sentieon_cli/command_strings.py:73-77 | the command ends with the fixed flags and the model path it records in the bag |
| Stages.ModelApplyAsWritten | sentieon_cli/command_strings.py:81-90 | as written: success iff the driver (no interval, no sample) succeeds; the command is the driver followed directly by the DNAModelApply flags, with no separator between them (its length is the sum of the two) |
| Stages.ModelApply | sentieon_cli/command_strings.py:81-90 | corrected: the same success condition; the command is the driver, at most one added blank, then the flags; the flags always follow a blank, and nothing is added when the driver already ends in one |
| Stages.ModelApplyAgrees | sentieon_cli/command_strings.py:88-89 | without a read filter, the corrected builder and the code as written give the same result |
| Stages.ModelApplyGluesFilter | sentieon_cli/command_strings.py:88-89 | with a read filter whose text does not end in a blank, the code as written has no blank before `--algo DNAModelApply` |
| Stages.ModelApplyDiffers | sentieon_cli/command_strings.py:88-89 | in that case the corrected builder differs from the code as written |
| Stages.ModelApplyTailWords | sentieon_cli/command_strings.py:89 | with blank-free paths, the flags split into `--algo DNAModelApply --model M -v I O` |
| Stages.HeadThen | sentieon_cli/command_strings.py:134-136 | with blank-free fields, the driver head splits into `sentieon driver -t T -r R` in front of whatever follows it |
| Stages.ModelApplyWords | sentieon_cli/command_strings.py:81-90 | without interval, sample or read filter and with blank-free fields, both builders give the docstring's command `sentieon driver -t T -r R --algo DNAModelApply --model M -v I O` word for word |
| Stages.AlgoDnascopeAsWritten | sentieon_cli/command_strings.py:219-243 | as written: a gVCF failure comes first, then `AttributeError` on a text dbSNP, then a driver failure passes through unchanged; success iff all three succeed, and success extends the positional driver |
| Stages.AlgoDnascope | sentieon_cli/command_strings.py:219-243 | corrected: success iff the gVCF clause and the positional driver succeed; a gVCF failure comes first and a driver failure passes through unchanged; success extends the driver |
| Stages.DnascopeEndsWithOutput | sentieon_cli/command_strings.py:242 | the command ends with ` --model MODEL OUT` |
| Stages.DnascopeText | sentieon_cli/command_strings.py:231-243 | corrected: a successful command is the driver, a blank, the gVCF pass, `--algo DNAscope `, the dbSNP clause, ` --model M O`; with a falsy `gvcf` (whatever `model_bundle` holds) it is the driver followed by ` --algo DNAscope ` and the rest |
| Stages.DnascopeAsWrittenText | sentieon_cli/command_strings.py:231-243 | as written: the same layout, with the dbSNP clause read through `.name` |
| Stages.GvcfOmitted | sentieon_cli/command_strings.py:231-237 | a falsy `gvcf` gives the same command as no `gvcf` |
| Stages.GvcfBeforeMainPass | sentieon_cli/command_strings.py:231-242 | a requested gVCF pass is inserted between the driver and the main DNAscope pass, and nothing else changes |
| Stages.DnascopeReadsSample | sentieon_cli/command_strings.py:243 | without `skip_sample_input` in the bag, the command starts with a driver that reads the sample |
| Stages.DnascopeAgreesOnHandles | sentieon_cli/command_strings.py:238-241 | with no dbSNP or a dbSNP handle, the corrected builder and the code as written agree |
| Stages.DnascopeHasDbsnp | sentieon_cli/command_strings.py:238-243 | corrected: a successful DNAscope command with a truthy `dbsnp` contains ` --dbsnp PATH `, with `PATH` the value resolved through `name()` |
| Stages.DnascopeRejectsPlainDbsnp | sentieon_cli/command_strings.py:239 | a non-empty text dbSNP makes the code as written raise `AttributeError`, while the corrected command contains ` --dbsnp PATH ` |
| Stages.DnascopeHp | sentieon_cli/command_strings.py:246-275 | the fragment starts with `--algo DNAscopeHP `, never with `sentieon `, and ends with the PCR-indel model, `--min_repeat_count 6` and the output |
| Stages.HpModelClause | sentieon_cli/command_strings.py:270-273 | the `--model M ` clause is present exactly when a model is given, between the dbSNP clause and the ending |
| Pyexec.PyexecHead | sentieon_cli/command_strings.py:165 | the pyexec head starts with `sentieon pyexec SCRIPT` and ends with ` -t N ` |
| Pyexec.PyexecError | sentieon_cli/command_strings.py:165 | the pyexec head fails on the script key before `cores`: a missing or handle script key names the script key, and only a usable script key lets a missing or handle `cores` be the error |
| Pyexec.HeadWords | sentieon_cli/command_strings.py:165 | with blank-free fields, the head splits into `sentieon pyexec SCRIPT -t N`, ahead of the words of what follows |
| Pyexec.FormatPattern | sentieon_cli/command_strings.py:169-174 | `patt % (n, s)` succeeds exactly on the supported `%d…%s` templates |
| Pyexec.TwoHoleFill | sentieon_cli/command_strings.py:169-174 | every `P%dM%sT` template is supported, and formatting gives `P + str(n) + M + s + T` |
| Pyexec.PatternShape | sentieon_cli/command_strings.py:169-174 | conversely, every supported template is of the form `P%dM%sT` |
| Pyexec.FillBlankless | sentieon_cli/command_strings.py:169-174 | formatting a blank-free template with blank-free text gives a single word |
| Pyexec.HaploidPatch | sentieon_cli/command_strings.py:144-175 | an unknown technology fails first (`UnknownTech`), then the head, then the template; success exactly when all three pass |
| Pyexec.PatchedHapsWords | sentieon_cli/command_strings.py:173-174 | the ending splits into `--hap1_hp H1 --hap2_hp H2` with the `""`-filled names |
| Pyexec.HiFiClauseWords | sentieon_cli/command_strings.py:168-170 | the HiFi clause splits into `--hap1`/`--hap2` with the `nohp_`-filled names |
| Pyexec.OntClauseWords | sentieon_cli/command_strings.py:171-172 | the ONT clause splits into `--phased VCF` |
| Pyexec.LeadWords | sentieon_cli/command_strings.py:166-167 | `haploid_patch --patch1 P1 --patch2 P2` splits into those words, ahead of the clauses |
| Pyexec.HaploidWords | sentieon_cli/command_strings.py:165-175 | with blank-free arguments, the command splits into head, patch inputs, technology clause and patched haplotypes, in that order |
| Pyexec.HaploidTechDiffers | sentieon_cli/command_strings.py:168-172 | HiFi and ONT commands share everything except the technology clause |
| Pyexec.HaploidEndsWithHp | sentieon_cli/command_strings.py:165-175 | every haploid patch command starts with the head and ends with the patched haplotype names |
| Pyexec.Patch | sentieon_cli/command_strings.py:178-185 | patch succeeds exactly when the `vcf_mod_py` head renders, and fails with the head's error otherwise |
| Pyexec.PatchWords | sentieon_cli/command_strings.py:183-184 | with blank-free arguments, the command splits into `… patch --vcf V --vcf_hp H OUT` |
| Pyexec.Merge | sentieon_cli/command_strings.py:199-216 | merge succeeds exactly when the `vcf_mod_py` head renders, and fails with the head's error otherwise |
| Pyexec.MergeWords | sentieon_cli/command_strings.py:210-214 | with blank-free arguments, the command splits into `… merge --hap1 … --hap2 … --unphased … --phased … --bed … OUT` |
| Pyexec.GvcfCombine | sentieon_cli/command_strings.py:188-196 | combine succeeds exactly when the `gvcf_combine_py` head renders, and fails with the head's error otherwise |
| Pyexec.ConvertWords | sentieon_cli/command_strings.py:193-195 | the conversion step splits into `\| sentieon util vcfconvert - NAME` |
| Pyexec.GvcfCombineWords | sentieon_cli/command_strings.py:191-195 | with blank-free arguments, the pipeline splits into head, `GVCF OUT -`, and the conversion step |
| Pyexec.GvcfCombineEnds | sentieon_cli/command_strings.py:193-195 | the pipeline ends with ` - ` and the converted name |
| Pyexec.GvcfCombineRenames | sentieon_cli/command_strings.py:193-195 | an output whose only `.vcf.gz` is its suffix is converted to the matching `.g.vcf.gz` |
| Pyexec.GvcfCombineRenamesFirst | sentieon_cli/command_strings.py:193-195 | the first `.vcf.gz` of the output becomes `.g.vcf.gz`, and the rest of the name is converted after it |
| Pyexec.GvcfCombineRenamesBoth | sentieon_cli/command_strings.py:193-195 | a name with two `.vcf.gz`, such as `d.vcf.gz/o.vcf.gz`, has both converted |
| Pyexec.GvcfCombineKeepsName | sentieon_cli/command_strings.py:193-195 | an output without `.vcf.gz` is passed on unchanged |
| Regions.FaiRow | sentieon_cli/command_strings.py:54-55 | a line with fewer than two fields raises `MissingField`; otherwise the row ends in a newline and has three columns, the middle one `0` |
| Regions.FaiRowColumns | sentieon_cli/command_strings.py:54-55 | the row's columns are the stripped line's first two fields with `0` between them |
| Regions.FaiRowFields | sentieon_cli/command_strings.py:54-55 | an index line of two or more tab-free fields gives the row of its first two fields, and any further fields are dropped |
| Regions.FaiRowNeedsTab | sentieon_cli/command_strings.py:54-55 | a line without a tab raises `MissingField` |
| Regions.Scan | sentieon_cli/command_strings.py:51-55 | the loop writes one row per line, in order, up to the first line without a row; it stops with that line's error |
| Regions.ScanDetermined | sentieon_cli/command_strings.py:51-55 | those rows and that failure are the only ones that fit the description |
| Regions.WriteRows | sentieon_cli/command_strings.py:51-55 | the imperative loop writes exactly the rows and the failure of Scan |
| Regions.FaiPath | sentieon_cli/command_strings.py:51-53 | the index path is `name(reference) + ".fai"`: `KeyError` without a reference, `TypeError` for a value that is not text or a handle |
| Regions.BedtoolsSubtract | sentieon_cli/command_strings.py:40-59 | a file is written only when the regions are `None`, and its name ends in `_reference.bed`; failures happen only then; the command starts with `bedtools subtract -a ` and ends with `> UNPHASED` |
| Regions.SubtractEnds | sentieon_cli/command_strings.py:57-58 | the command starts with `bedtools subtract -a ` and ends with ` > UNPHASED` |
| Regions.SubtractIgnoresKwargs | sentieon_cli/command_strings.py:46 | given regions, neither the bag nor the files are consulted and nothing is written |
| Regions.WholeGenomeIsWrittenFile | sentieon_cli/command_strings.py:46-58 | a successful whole-genome call wrote a file, and the command is the one given that file as regions; the file holds one row per index line |
| Regions.WholeGenomeErrors | sentieon_cli/command_strings.py:46-55 | a missing `tmp_base` fails before any file exists; a missing reference leaves an empty file; a partial file stops at the index line whose row failed |
| Regions.SubtractWords | sentieon_cli/command_strings.py:57-58 | with blank-free paths, the command splits into `bedtools subtract -a R -b P > U` |
| Regions.GivenRegionsWords | sentieon_cli/command_strings.py:57-58 | given target regions and blank-free paths, the builder's command is `bedtools subtract -a name(R) -b P > U` word for word |
| Regions.WholeGenomeWords | sentieon_cli/command_strings.py:46-58 | without target regions, a successful command is `bedtools subtract -a TMP_reference.bed -b P > U` word for word, subtracting from the file it wrote |
| Doctests.DriverWithSample | sentieon_cli/command_strings.py:112-115 | the first driver example gives `sentieon driver -t 4 -r ref.fasta  --interval phased.bed -i sample.bam` |
| Doctests.DriverWithoutSample | sentieon_cli/command_strings.py:116-117 | the second driver example gives the same command without ` -i sample.bam` |
| Doctests.DriverWithFilter | sentieon_cli/command_strings.py:119-122 | the third driver example ends with ` --read_filter PhasedReadFilter,phased_vcf=p.vcf.gz` |
| Doctests.HpWithModel | sentieon_cli/command_strings.py:259-262 | the first HP example gives `--algo DNAscopeHP --dbsnp dbsnp.vcf.gz --model haploid_hp_model --pcr_indel_model repeat_model --min_repeat_count 6 hp.vcf.gz` |
| Doctests.HpWithoutModel | sentieon_cli/command_strings.py:263-265 | the second HP example gives the same fragment without the `--model` clause |
| Doctests.PatchNames | sentieon_cli/command_strings.py:155-160 | the example template is supported and names `out_hap1_tmp.vcf.gz` and `out_hap2_tmp.vcf.gz` |
| Doctests.HaploidHiFi | sentieon_cli/command_strings.py:155-157 | the HiFi example succeeds and contains `--hap1 ` |
| Doctests.OntWords | sentieon_cli/command_strings.py:158-160 | the ONT example succeeds and splits into its sixteen words |
| Doctests.HaploidOnt | sentieon_cli/command_strings.py:158-160 | the ONT example succeeds and does not contain `--hap1 ` |

## Left out

- Logging: the module-level logger is not modelled. No builder writes to it.
- Values.Render: the text of an open file handle inside an f-string (its Python repr) is not modelled. Rendering a handle is reported as `Unrendered(key)`.
- Pyexec.FormatPattern: only templates of the form `P%dM%sT` with no other `%` are formatted. Other templates, such as `%%`, flags, widths or other conversions, are reported as `UnsupportedPattern`.
- Driver.DriverCall: when both `bed_key` and `skip_sample_input` collide, Python names one of them in its `TypeError`; the model always names `bed_key`. Both are the same failure.
- Python's `KeyError` and `TypeError` messages are not modelled, only the key concerned.
- Regions.BedtoolsSubtract: file I/O is reduced to a map from paths to lines. Not modelled:
  - encodings and universal newlines;
  - write, flush and close errors;
  - permission errors;
  - the file left open when iteration fails.
  A missing index is the only I/O error modelled (`FileNotFound`).
- Regions.BedtoolsSubtract: Python creates the BED file before it evaluates `kwargs["reference"]`. The model records that file as written with the rows produced so far, and does not model its content on disk beyond those rows.
- The callers of these builders (the pipeline drivers) and the external processes that run the commands are not part of this model.
- `shell=True` quoting is not modelled: the word-split lemmas assume blank-free arguments and split at single blanks, with no quoting or escaping.

## Findings

| source | as written | input that shows it | evidently intended | confidence | as-written member | corrected member |
|---|---|---|---|---|---|---|
| sentieon_cli/command_strings.py:88-89 | `--algo DNAModelApply` is appended to the driver prefix with no separator; only the bare head ends in a blank | `kwargs` with `cores`, `reference` and `"read-filter": "PhasedReadFilter,phased_vcf=p.vcf.gz"` gives `... --read_filter PhasedReadFilter,phased_vcf=p.vcf.gz--algo DNAModelApply ...` | a blank between the driver prefix and `--algo` | medium; not executed | Stages.ModelApplyAsWritten, Stages.ModelApplyGluesFilter | Stages.ModelApply, Stages.ModelApplyAgrees |
| sentieon_cli/command_strings.py:239 | the dbSNP path is read as `kwargs['dbsnp'].name`, which only an open file handle has | `kwargs` with `"dbsnp": "dbsnp.vcf.gz"` (the bag of the `cmd_dnascope_hp` examples) raises `AttributeError` | `name(kwargs['dbsnp'])`, as `cmd_dnascope_hp` does at line 269 | medium; not executed | Stages.AlgoDnascopeAsWritten, Stages.DnascopeRejectsPlainDbsnp | Stages.AlgoDnascope, Stages.DnascopeAgreesOnHandles |
