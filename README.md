# s3car radar site configuration, modelled in Dafny

`s3car_config.py` keeps the radar site list of the s3car server up to date.
It downloads the radar site information file `siteinfo.txt` and compares it with the cached copy through a temporary file. When the cache changed, or the configuration table does not exist yet, it rebuilds `radar_site_list.csv`:

- it cuts the `RADAR SITE DATA` and `RADAR TYPE DATA` blocks out of the text and turns each into comma-separated rows;
- it left-joins sites to radar types on the type text;
- it turns the latitude to positive-north;
- it divides the wavelength and the two beamwidths by ten;
- it labels every site with the IEEE radar band of its wavelength.

The project models that core in six modules, with a seventh, `Sequences` (`sequences.dfy`), holding generic facts about concatenation:

- `Results` (`results.dfy`): the `Option` and `Result` values that stand in for Python's exceptions.
- `FrequencyBand` (`frequency_band.dfy`): `get_frequency_band` as a pure function over `real`.
  - It is a first-match scan over the IEEE table, a recursive `FirstMatch`.
  - A zero wavelength fails with `DivisionByZero`; a frequency no band holds fails with `InvalidWavelength`.
  - `Series.apply` hands each wavelength to the lookup as a Python float, so a zero wavelength in the type table raises `ZeroDivisionError` in the lookup's division. The build then fails with `DivisionByZero` and writes nothing.
- `SectionParser` (`section_parser.dfy`): the two block-reading loops of `main`, as one method `ParseSection` parametrised by the block's markers and header.
  - The method keeps the source's loop: its `continue`s, its `break` and its `read` flag.
  - It is proved equal to a recursive specification (`ExtractSection`) and to an independent window definition (`Window`: the data lines between the first start line before the first end line, and that end line).
  - The line rewriting is three functions: `LStrip`, `CollapseSpaces` (`re.sub(" +", ",")`) and `RemoveUnderscores`.
  - `SectionExamples` (`section_examples.dfy`) works the definitions through concrete lines.
- `TableBuilder` (`table_builder.dfy`): the pandas steps as pure functions over records.
  - The left merge keeps the site order and repeats a site once per matching type row. A site without a type row gets a NaN row.
  - The column transform and the band lookup follow the merge. The first failing lookup fails the whole build, so nothing is written.
- `UpdateChecker` (`update_checker.dfy`): the configuration directory as a class whose `files` field maps paths to contents.
  - `CheckUpdate` runs `check_update`'s file steps one by one: write, compare, remove, rename, remove the temporary file.
  - It is proved to agree with the pure `CheckUpdateSpec`.
  - `Refresh` is `main`: the short-circuit, then the parse, build and write.
  - The download, line splitting, CSV reading and CSV writing are parameters.

The temporary file is removed only on the comparison path. On the very first download the code writes the cache directly and does not touch the temporary path, so a temporary file left by an earlier crash stays. The model follows the code (`TemporaryFileRemoved`).

## Model

| member | source | states |
|---|---|---|
| FrequencyBand.GetFrequencyBand | s3car_config.py:53 | the lookup fails with DivisionByZero exactly when the wavelength is zero |
| FrequencyBand.Gigahertz | s3car_config.py:53 | the frequency in GHz times the wavelength in cm is 30 |
| FrequencyBand.FirstMatch | s3car_config.py:54-56 | a found position holds the frequency and no earlier band does; nothing is found exactly when no band holds it |
| FrequencyBand.ClassifiedByFirstMatch | s3car_config.py:53-59 | a classified wavelength gets the name of the first IEEE band holding its frequency, always one of the nine names; InvalidWavelength exactly when no band holds it |
| FrequencyBand.IeeeBandsContiguous | s3car_config.py:41-51 | the table is ascending, neighbours share their edges, and it spans 1 to 110 GHz |
| FrequencyBand.MatchExactlyInCoveredRange | s3car_config.py:41-56 | a frequency finds a band exactly when it lies in [1, 110] GHz |
| FrequencyBand.ClassifiedWavelengths | s3car_config.py:53-59 | the lookup succeeds exactly for wavelengths in [30/110, 30] cm; zero and negative wavelengths fail |
| FrequencyBand.SharedEdgeGoesToEarlierBand | s3car_config.py:54-56 | in an ascending table a frequency on a shared edge goes to the lower band |
| FrequencyBand.EdgeExamples | s3car_config.py:42-56 | in exact reals, 15 cm (2 GHz) is L, 7.5 cm (4 GHz) is S, 3.75 cm (8 GHz) is C: a shared band edge goes to the lower band |
| FrequencyBand.WavelengthExamples | s3car_config.py:53-59 | 5 cm is C; 1000 cm and 0.01 cm raise the invalid-wavelength error |
| FrequencyBand.FirstMatchMonotone | s3car_config.py:54-56 | in an ascending table a higher frequency never gets an earlier band |
| FrequencyBand.LongerWavelengthLowerBand | s3car_config.py:53-56 | among classified wavelengths a longer one never gets a later band |
| SectionParser.ParseSection | s3car_config.py:115-159 | both block loops (site block at lines 115-136, type block at 139-159, the same method with each block's markers and header) return the header followed by exactly the window's normalised data lines |
| SectionParser.ScanReadsWindow | s3car_config.py:116-129 | the line-by-line scan collects exactly the data lines between a start line and the first end line |
| SectionParser.ScanWhileReading | s3car_config.py:124-134 | once reading, the scan collects every data line up to the first end line |
| SectionParser.RowsComeFromSectionDataLines | s3car_config.py:117-134 | every row after the header is the normalised form of a line strictly after a start line and before the first end line; that line is longer than one character, not a `#` comment and not a `0 ` entry |
| SectionParser.DataLinesInsideSectionAreRows | s3car_config.py:117-134 | every data line strictly between a start line and the first end line yields a row |
| SectionParser.EndBeforeStartGivesHeaderOnly | s3car_config.py:115-129 | an end line before any start line leaves only the header |
| SectionParser.LinesAfterEndIgnored | s3car_config.py:127-129 | whatever follows the first end line changes nothing |
| SectionParser.DataLineShape | s3car_config.py:118-123 | a line the loop keeps is longer than one character, not a comment and not disabled |
| SectionParser.Kind | s3car_config.py:118-129 | classifies a line by the loop's checks in the loop's order: at most one character, a `#` comment, a `0 ` entry after left-trimming, the start marker, the end marker, otherwise data; `DataLineShape` and `ParseSection` state what follows from it |
| SectionParser.Scan | s3car_config.py:116-134 | the recursive reading of the loop: no more rows than lines, and every row free of spaces and underscores |
| SectionParser.ExtractSection | s3car_config.py:115-136 | the block's rows start with the header, hold at most one row per line after it, and every row after the header is free of spaces and underscores |
| SectionParser.FirstOf | s3car_config.py:117-129 | the first line of a kind: no earlier line has it |
| SectionParser.Collected | s3car_config.py:130-134 | collected rows are no more than the lines and hold no space and no underscore |
| SectionParser.CollectedFromDataLines | s3car_config.py:130-134 | each collected row is the normalised form of a data line in the range |
| SectionParser.DataLinesCollected | s3car_config.py:130-134 | each data line of a range is collected |
| SectionParser.LStrip | s3car_config.py:122-130 | `str.lstrip()`, the left-trimming of lines 122 and 130; its meaning is stated by `LStripRemovesLeadingWhitespace` and `LStripRun` |
| SectionParser.LStripRemovesLeadingWhitespace | s3car_config.py:130 | left-trimming drops a leading whitespace run and nothing else |
| SectionParser.LStripRun | s3car_config.py:130 | a whitespace run before a non-space is removed exactly |
| SectionParser.CollapseSpaces | s3car_config.py:131 | the rewritten line holds no space and is no longer than the input |
| SectionParser.CollapseSpacesStreams | s3car_config.py:131 | collapsing whole runs equals the one-character-at-a-time rewriting |
| SectionParser.TrailingSpacesBecomeComma | s3car_config.py:131 | a trailing space run becomes one trailing comma |
| SectionParser.RowEndsWithComma | s3car_config.py:130-132 | a data line that ends in spaces and is not all whitespace becomes a row that ends in a comma |
| SectionParser.RemoveUnderscoresAppend | s3car_config.py:132 | removing underscores from two joined texts is removing them from each |
| SectionParser.CollapseRun | s3car_config.py:131 | a whole space run becomes a single comma |
| SectionParser.CollapseKeepsWord | s3car_config.py:131 | text without spaces is kept as it is |
| SectionParser.RemoveUnderscores | s3car_config.py:132 | no underscore remains |
| SectionParser.RemoveUnderscoresKeepsOthers | s3car_config.py:157 | every character other than an underscore is kept as often as it occurs |
| SectionParser.NoUnderscoreKept | s3car_config.py:132 | a text without underscores comes through unchanged |
| SectionParser.Normalize | s3car_config.py:130-132 | a normalised row holds no space and no underscore |
| SectionExamples.DisabledLineExample | s3car_config.py:122-123 | the line `0 3 ABC 12.3` is a disabled entry |
| SectionExamples.FieldsJoinedByCommas | s3car_config.py:131 | three fields separated by space runs come out separated by single commas |
| SectionExamples.DataLineExample | s3car_config.py:130-132 | `  3   ABC   12.3` becomes `3,ABC,12.3` |
| TableBuilder.MatchingTypes | s3car_config.py:166 | a type row is matched exactly when it is in the type table with the site's type text; order and multiplicity are stated by the two lemmas below |
| TableBuilder.MatchingTypesCounts | s3car_config.py:166 | each type row with the site's type text is matched as often as the type table holds it, every other row never |
| TableBuilder.MatchingTypesAppend | s3car_config.py:166 | matching keeps the type-table order: matching a concatenation is concatenating the matches |
| TableBuilder.JoinSite | s3car_config.py:166 | a site has at least one join row, and every one of them is that site's |
| TableBuilder.JoinSiteMembers | s3car_config.py:166 | matched rows carry a type row of the site's type text, every such type row appears, and the unmatched row appears exactly when none matches |
| TableBuilder.JoinSiteRows | s3car_config.py:166 | without a match the site has exactly one unmatched row; otherwise its rows follow the matching type rows one for one, in order, each as often as the type table holds it |
| TableBuilder.LeftJoin | s3car_config.py:166 | at least one row per site; matched rows carry a type row of the same type text; unmatched rows only for sites no type row matches |
| TableBuilder.LeftJoinAppend | s3car_config.py:166 | the join keeps the site order: joining a concatenation of site tables concatenates their joins |
| TableBuilder.LeftJoinMatchedCount | s3car_config.py:166 | a site and a type row of its type text meet as often as the site occurs times as often as the type row occurs |
| TableBuilder.LeftJoinUnmatchedCount | s3car_config.py:166 | a site no type row matches has exactly one unmatched row per occurrence in the site table |
| TableBuilder.LeftJoinCoversSites | s3car_config.py:166 | every site appears: with each type row of its type text, or unmatched when it has none |
| TableBuilder.OneRowPerSite | s3car_config.py:166 | with unique type texts the join has one row per site, in site order |
| TableBuilder.UniqueTextsJoinOnce | s3car_config.py:166 | with unique type texts a site meets at most one type row |
| TableBuilder.Transform | s3car_config.py:166-172 | a row succeeds exactly when it met a type row whose wavelength over ten classifies; a failure names the site and carries the lookup's own error (`DivisionByZero` for a zero wavelength, `InvalidWavelength` out of range) or `InvalidWavelength` for the NaN row of an unmatched site |
| TableBuilder.TransformedRowFields | s3car_config.py:168-172 | latitude negated, wavelength and beamwidths divided by ten, site columns kept, band equal to the lookup of the new wavelength |
| TableBuilder.Build | s3car_config.py:166-172 | a built table has at least one row per site; a failed build names a site of the site table |
| TableBuilder.TransformAll | s3car_config.py:172 | the table is built exactly when every row transforms, row for row; otherwise the error is the first failing row's |
| TableBuilder.BuildSucceedsExactly | s3car_config.py:166-172 | the build succeeds exactly when every site has a type row and all its type rows classify |
| TableBuilder.UnmatchedSiteFailsBuild | s3car_config.py:166-172 | one site without a type row fails the whole build |
| TableBuilder.WorkedExample | s3car_config.py:166-172 | a site at latitude 10 with a 50 (tenths of cm) radar becomes latitude -10, 5 cm, band C |
| UpdateChecker.PathsDistinct | s3car_config.py:182-185 | the cache, the temporary file and the output are different paths |
| UpdateChecker.BuildConfig | s3car_config.py:111-172 | the table of the cached text is built exactly when every site read from the site block has a type row and all its type rows classify; a failure names one of those sites |
| UpdateChecker.CheckUpdateSpec | s3car_config.py:62-101 | empty content fails; otherwise `changed` holds exactly when there was no cache or it differed; the cache ends up holding the download; the temporary file is gone after a comparison |
| UpdateChecker.ConfigDirectory.CheckUpdate | s3car_config.py:62-101 | the step-by-step file operations return and leave what CheckUpdateSpec describes; an error leaves the directory unchanged |
| UpdateChecker.ConfigDirectory.IsFile | s3car_config.py:78-106 | `os.path.isfile`, used at lines 78 and 106: a path is a file exactly when the directory map holds it |
| UpdateChecker.ConfigDirectory.WriteFile | s3car_config.py:79-80 | the path now holds the content, nothing else changes |
| UpdateChecker.ConfigDirectory.RemoveFile | s3car_config.py:96-99 | the path is gone; the result tells whether it was there |
| UpdateChecker.ConfigDirectory.RenameFile | s3car_config.py:94 | the destination holds the source's content and the source is gone |
| UpdateChecker.ConfigDirectory.Refresh | s3car_config.py:104-178 | an error from the check changes nothing; an unchanged cache with an existing table returns early; otherwise the table is written exactly when the build succeeds, and a failed build writes nothing |
| UpdateChecker.SecondCheckReportsNoUpdate | s3car_config.py:83-101 | checking the same download again reports no change, keeps the cache and clears the temporary file |
| UpdateChecker.CheckedCacheHoldsDownload | s3car_config.py:77-101 | after a check the cache holds the download, and no file but the cache and the temporary file changed |
| UpdateChecker.TemporaryFileRemoved | s3car_config.py:77-101 | after a comparison the temporary file is absent; a first download leaves it as it was |
| UpdateChecker.RefreshSkippedExactly | s3car_config.py:104-108 | main stops early exactly when the download equals the cache and the table exists |

## Left out

- The download (`requests.get`) and its ASCII decoding: the downloaded text is the `content` parameter, so a network failure or a non-ASCII byte is not modelled.
- `str.splitlines`, `pandas.read_csv` and `DataFrame.to_csv`: they are the `splitLines`, `readSites`, `readTypes` and `render` parameters of `Refresh`. CSV type inference, malformed rows and the `%g` float formatting are not modelled.
- Floating point: wavelengths and frequencies are exact reals, so IEEE-754 rounding right at a band edge is not modelled.
- FrequencyBand.EdgeExamples: holds in exact reals only. In IEEE-754 doubles `1e-9 * 300_000_000` is 0.30000000000000004, so 15, 7.5 and 3.75 cm come out a hair above 2, 4 and 8 GHz and the program returns S, C and X for them (a type-table wavelength of 150, 75 or 37.5 reaches these values). Exact band edges are reached only in exact arithmetic.
- Transform: an unmatched site has a NaN wavelength in pandas. The lookup then finds no band and raises ValueError, which the model reports as InvalidWavelength.
- `filecmp.cmp` with its default shallow mode may treat two files with equal size and modification time as equal without reading them. The model compares contents.
- The real filesystem is a map from paths to text: permissions, partial writes, a missing configuration directory and other I/O errors are not modelled.
- Two processes racing on the fixed temporary file name are not modelled (the program runs once at a time).
- The `print` messages and the module-level globals set under `__main__` are left out. The globals are the paths, which become constants.
- `set_index("id")` is reflected only by the `id` column leading each row. Duplicate ids are not checked, as in the source.
