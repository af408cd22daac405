# brainlife app container inventory — the string-processing core

The script `brainlife_apps_containers_software.py` builds an inventory of the software
installed in the Docker containers used by brainlife apps. It works in two stages.

**Discovery.** For each app repository, it lists the branches with `git ls-remote --heads`. It
checks out every branch and greps the main descriptor for `docker:` lines. Each such line
becomes a `docker://<path>` reference, and the references are deduplicated, keeping the first
occurrence of each.

**Inventory.** For each container, it runs the `syft` scanner and parses the scanner's
quoted-CSV output into `(package, version, found_by)` rows. It then probes the container for
neuroimaging packages the scanner misses:
- A container whose name mentions qsiprep, fmriprep or mriqc is asked that pipeline's
  `--version`.
- Any other container is probed for freesurfer, connectome_workbench, mrtrix, dsistudio,
  pynets, freesurfer-stats and fsl, in that order.

Every probe's output first has two known banners removed (an FSL licence citation and a
command-menu usage text). A package-specific positional rule then reads a version out of it,
and a found version is appended as a `manual-inspection` row.

This project models that layer in Dafny. Every process output is an input string. The
commands run inside a container are a function `run` from the full command line to what it
prints. The modules are:

- `Options`: `Option` and the "every element maps to `Some`" lifting used for list
  comprehensions that raise.
- `PyStrings`: Python's `str.find`, `split`, `replace`, `strip` and `join`, with
  `split('\n')[:-1]` as `Lines`.
- `Normalizers`: `check_if_python`, `check_fsl_citation` and `check_fsl_python`.
- `Discovery`: reference extraction, dedup and branch parsing. `build_app_branches_df`'s loop
  is the method `BuildAppBranches`.
- `GenericScan`: the scanner table, including pandas' padding of short rows.
- `Detection`: dispatch, the recording gate, the per-package version rules,
  `check_neuroimage_package`, and `identify_binaries`'s loop as the method `IdentifyBinaries`.

A Python exception (an `IndexError` from `[0]`/`[1]`/`[-1]` on a too-short list, an unbound
version variable, or pandas refusing a table) is `None` in a function's result or the
`Raised` outcome of a detector.

Behaviours of the script a reader may not expect:

- The normalizers are not idempotent. `replace` can splice the two halves of a banner into a
  new banner. `Normalizers.CheckIfPythonNotIdempotent` and
  `Normalizers.CheckFslCitationNotIdempotent` exhibit the input.
- A detector whose positional rule finds nothing raises. That aborts the whole container's
  table; nothing is skipped.
- Gated packages record whatever their rule reads, including an empty version (dsistudio,
  fsl). Only the pipelines check for an empty version.
- Pipeline output is cut at single spaces, not at runs of whitespace, so empty tokens are
  possible.
- The freesurfer home is cut before the first `/bin` anywhere in the path, not only a trailing
  one.
- dsistudio takes the text after the last `": "` of the first line.
- The freesurfer fallback runs whenever the VERSION file's text after its last newline is
  empty. That is every VERSION file ending in a newline (`Detection.FreesurferNewlineEnded`).
- A Pipfile whose last line mentions `freesurfer-stats` raises. The comprehension reads the
  line after every match, not just the first.

## Model

| member | source | states |
|---|---|---|
| Options.AllSome | brainlife_apps_containers_software.py:44 | A comprehension over a list succeeds exactly when every element succeeds; it then has one result per element, in order |
| PyStrings.Find | brainlife_apps_containers_software.py:44 | `find(t)` is -1 or an index where `t` occurs |
| PyStrings.FindFirst | brainlife_apps_containers_software.py:44 | No occurrence starts before the index `find` reports, and none at all when it reports -1 |
| PyStrings.FindContains | brainlife_apps_containers_software.py:44 | `t in s` exactly when `find(t)` is not -1 |
| PyStrings.Before | brainlife_apps_containers_software.py:44 | The text up to the first separator is a prefix without the separator, followed by the separator when it occurs |
| PyStrings.After | brainlife_apps_containers_software.py:44 | The text after the first separator is the suffix that follows it |
| PyStrings.Split | brainlife_apps_containers_software.py:64 | `split(sep)` always yields at least one field |
| PyStrings.SplitJoin | brainlife_apps_containers_software.py:64 | Joining the fields of `split(sep)` with `sep` gives back the text |
| PyStrings.SplitFields | brainlife_apps_containers_software.py:64 | The first field is the text before the first separator, and the second is the text between the first and the next separator |
| PyStrings.SplitSingle | brainlife_apps_containers_software.py:64 | `split(sep)` has a single field exactly when the separator is absent |
| PyStrings.SplitFieldsFree | brainlife_apps_containers_software.py:64 | No field of `split(sep)` contains the separator |
| PyStrings.SplitJoinChar | brainlife_apps_containers_software.py:41 | Splitting a join of parts free of a one-character separator gives the parts back |
| PyStrings.SecondField | brainlife_apps_containers_software.py:44 | `split(sep)[1]` is `None` exactly when the separator is absent, and otherwise is the text between its first and second occurrence |
| PyStrings.LastField | brainlife_apps_containers_software.py:152 | `split(sep)[-1]` is a separator-free suffix that follows the last occurrence of the separator |
| PyStrings.LastFieldIsSuffix | brainlife_apps_containers_software.py:152 | The last field is the suffix after the last occurrence of the separator |
| PyStrings.RemoveAll | brainlife_apps_containers_software.py:96 | `replace(t, '')` never lengthens the text |
| PyStrings.RemoveAllStep | brainlife_apps_containers_software.py:96 | `replace(t, '')` keeps the text before the first `t`, drops that `t`, and goes on after it; without a `t` it changes nothing |
| PyStrings.RemoveAllChanges | brainlife_apps_containers_software.py:96 | `replace(t, '')` leaves the text unchanged when `t` is absent and strictly shortens it when `t` occurs |
| PyStrings.RemoveAllIsJoinOfSplit | brainlife_apps_containers_software.py:96 | `replace(t, '')` equals `''.join(split(t))` |
| PyStrings.RemoveAllChar | brainlife_apps_containers_software.py:209 | Removing a one-character string leaves no copy of that character |
| PyStrings.RemoveAllCharIsWithout | brainlife_apps_containers_software.py:209 | Removing a one-character string is filtering that character out |
| PyStrings.RemoveAllLeading | brainlife_apps_containers_software.py:112 | A copy of the removed text at the front disappears without affecting the rest |
| PyStrings.RemoveAllSplices | brainlife_apps_containers_software.py:96 | One pass of `replace` on a banner cut open by a second copy leaves a whole banner, and a second pass removes it |
| PyStrings.StripLeft | brainlife_apps_containers_software.py:172 | Drops exactly the leading run of the character |
| PyStrings.StripRight | brainlife_apps_containers_software.py:172 | Drops exactly the trailing run of the character |
| PyStrings.Strip | brainlife_apps_containers_software.py:172 | `strip(c)` is a slice with only `c` outside it, and it neither starts nor ends with `c` |
| PyStrings.Lines | brainlife_apps_containers_software.py:41 | `split('\n')[:-1]` is the split without its last field: one fewer element, the same elements in the same order, none holding a newline |
| PyStrings.FirstLine | brainlife_apps_containers_software.py:183 | `split('\n')[0]` is the prefix up to the first newline or the end |
| PyStrings.LinesOfJoin | brainlife_apps_containers_software.py:206 | Newline-free lines written one per line are read back unchanged |
| Normalizers.PythonGuard | brainlife_apps_containers_software.py:95-96 | Without the python marker, the python banner cannot occur |
| Normalizers.CitationGuard | brainlife_apps_containers_software.py:104-105 | Without the citation marker, the citation cannot occur |
| Normalizers.CheckIfPython | brainlife_apps_containers_software.py:93-98 | Returns the output unchanged when the marker is absent, and otherwise with every copy of the banner removed; never longer |
| Normalizers.CheckFslCitation | brainlife_apps_containers_software.py:102-107 | Returns the output unchanged when the marker is absent, and otherwise with every copy of the citation removed; never longer |
| Normalizers.Normalize | brainlife_apps_containers_software.py:110-116 | The citation is removed first, then the python banner; never longer |
| Normalizers.NormalizeFixed | brainlife_apps_containers_software.py:110-116 | Normalizing leaves an output unchanged exactly when neither banner occurs in it |
| Normalizers.NormalizeDropsLeadingCitation | brainlife_apps_containers_software.py:110-116 | A citation printed in front of an output is dropped and changes nothing else |
| Normalizers.CheckIfPythonNotIdempotent | brainlife_apps_containers_software.py:96 | A second pass of `check_if_python` can remove a banner the first pass created |
| Normalizers.CheckFslCitationNotIdempotent | brainlife_apps_containers_software.py:105 | A second pass of `check_fsl_citation` can remove a citation the first pass created |
| Discovery.ContainerRef | brainlife_apps_containers_software.py:44 | A line yields a reference exactly when it holds `docker://`; the reference is `docker://` plus a space-free path that starts at the first `docker://` and runs to a space, the next `docker://` or the end of the line |
| Discovery.RefShape | brainlife_apps_containers_software.py:44 | The path cut from the line is space-free, holds no `docker://`, and sits right after the first `docker://` |
| Discovery.IndexOf | brainlife_apps_containers_software.py:47 | `list.index(x)` is the first position of `x` |
| Discovery.Dedup | brainlife_apps_containers_software.py:47 | Keeps the same elements, each once, in the order of their first occurrence |
| Discovery.KeepFirstsMembers | brainlife_apps_containers_software.py:47 | From position `i` on, the dedup holds exactly the elements first seen at or after `i` |
| Discovery.KeepFirsts | brainlife_apps_containers_software.py:47 | From position `i` on, the dedup is no longer than the rest of the list and holds only its elements |
| Discovery.KeepFirstsOrder | brainlife_apps_containers_software.py:47 | From position `i` on, the dedup lists elements in order of first occurrence |
| Discovery.DedupNoDups | brainlife_apps_containers_software.py:47 | A list without repetitions is left unchanged |
| Discovery.DedupIdempotent | brainlife_apps_containers_software.py:47 | Deduplicating twice is deduplicating once |
| Discovery.DockerContainers | brainlife_apps_containers_software.py:41-47 | The container list of one checkout has no repetitions |
| Discovery.DockerContainersRefs | brainlife_apps_containers_software.py:41-47 | The awk output yields containers exactly when every line holds `docker://`, and they are exactly the lines' references |
| Discovery.BranchName | brainlife_apps_containers_software.py:64 | A line yields a branch exactly when it holds `/heads/`; the branch is the text after the first `/heads/` up to the next one |
| Discovery.AppBranches | brainlife_apps_containers_software.py:61-64 | The branches are listed exactly when every line holds `/heads/`; one name per line, in order |
| Discovery.BranchNameOfHead | brainlife_apps_containers_software.py:64 | A `<sha>\trefs/heads/<name>` line yields its name back |
| Discovery.BranchRows | brainlife_apps_containers_software.py:82-85 | One row per container, each naming the app, its owner and the branch |
| Discovery.AppTableStep | brainlife_apps_containers_software.py:79-88 | One more branch appends that branch's rows, or makes the table fail |
| Discovery.AppTableOf | brainlife_apps_containers_software.py:79-88 | The table over the listed branches fails exactly when one branch's awk output has a `docker:` line without `docker://` (the `IndexError` of `split('docker://')[1]`); a checkout with no container lines adds no rows and does not fail |
| Discovery.AppTableRows | brainlife_apps_containers_software.py:79-88 | Every row names the app, its owner and one of the listed branches |
| Discovery.AppTableNoRepeats | brainlife_apps_containers_software.py:79-88 | Distinct branches give a table with no repeated row |
| Discovery.BranchRowsNoDups | brainlife_apps_containers_software.py:82-85 | Distinct containers give distinct rows |
| Discovery.NoRowDupsAppend | brainlife_apps_containers_software.py:87 | Appending repeat-free rows of a new branch keeps the table repeat-free |
| Discovery.AppTableFails | brainlife_apps_containers_software.py:79-88 | Once one checkout fails, the whole table fails |
| Discovery.AppTable | brainlife_apps_containers_software.py:69-90 | The table fails exactly when the branch listing has a line without `/heads/` or one branch's awk output has a line without `docker://`; every row names the app, its owner and a listed branch |
| Discovery.BuildAppBranches | brainlife_apps_containers_software.py:69-90 | The loop over branches yields exactly the table over the listed branches, or fails as it does |
| GenericScan.Cells | brainlife_apps_containers_software.py:209 | A data line's cells hold no quote and no comma, there is at least one, and joined with commas they give back the line with its quotes removed |
| GenericScan.CellsQuoteFree | brainlife_apps_containers_software.py:209 | The cells of a quote-free text are quote-free |
| GenericScan.DataLines | brainlife_apps_containers_software.py:206-209 | The data lines are the output's lines after the header |
| GenericScan.Widest | brainlife_apps_containers_software.py:209 | The widest row is at least as wide as every row, and is one of them |
| GenericScan.ScanTable | brainlife_apps_containers_software.py:206-209 | The table fails exactly when some data line exists and the widest is not three cells; otherwise one row per data line, in order, holding its first cell as the package, its second as the version and its third as the finder, a missing cell padded as `None` |
| GenericScan.UnquoteQuoted | brainlife_apps_containers_software.py:209 | Dropping the quotes of a template line leaves its cells joined by commas |
| GenericScan.CellsOfQuoted | brainlife_apps_containers_software.py:209 | A template line's cells are the three cells written |
| GenericScan.QuotedOneLine | brainlife_apps_containers_software.py:206 | A template line of plain cells holds no newline |
| GenericScan.DataLinesOfJoin | brainlife_apps_containers_software.py:206 | A header followed by newline-ended lines has exactly those lines as data |
| GenericScan.ScanTableFull | brainlife_apps_containers_software.py:209 | When every data line has three cells, the table does not fail |
| GenericScan.ScanTableOfQuoted | brainlife_apps_containers_software.py:206-209 | A header and, per entry, a line of its three cells each in double quotes and separated by commas read back as one full row per entry, in order |
| GenericScan.ScanExample | brainlife_apps_containers_software.py:206-209 | A header and one template line read back as one full row |
| Detection.Image | brainlife_apps_containers_software.py:206 | The image is missing exactly when the container has no `docker://`; otherwise it is the text after the first `docker://` up to the next one, and never holds it |
| Detection.ProbeFor | brainlife_apps_containers_software.py:232-250 | Each package's probe: `whereis` of `mri_vol2vol`, `wb_command`, `mrconvert`, `dsi_studio` or `pynets`; `ls /freesurfer-stats`; `find` of `fslversion` |
| Detection.Dispatch | brainlife_apps_containers_software.py:213-253 | A container gets one check or seven |
| Detection.ProbeCommand | brainlife_apps_containers_software.py:129-132 | A probe's command starts with the probe command and ends with its file; anything but `find` runs just those two |
| Detection.DispatchShape | brainlife_apps_containers_software.py:213-253 | One check exactly when the name holds a pipeline, and then it is `<pipeline> --version` with no file for the earliest of qsiprep, fmriprep, mriqc that the name holds; otherwise the seven packages in order, each with its own probe |
| Detection.Output | brainlife_apps_containers_software.py:132-134 | A probe's output is the output of `docker run --rm <image>` followed by the command, with both banners removed; never longer than the raw output |
| Detection.FirstWith | brainlife_apps_containers_software.py:172 | The first line holding the text, or the number of lines when none does |
| Detection.FirstWithNone | brainlife_apps_containers_software.py:172 | The search for the first line holding a text runs off the end exactly when no line holds it |
| Detection.LastOther | brainlife_apps_containers_software.py:141 | The last token other than the name, never the name |
| Detection.LastOtherIs | brainlife_apps_containers_software.py:141 | There is none exactly when every token is the name; otherwise it is a token followed only by copies of the name |
| Detection.VersionTokens | brainlife_apps_containers_software.py:140 | The tokens of the newline-stripped output hold no space, and joined with single spaces give that output back |
| Detection.PipelineVersion | brainlife_apps_containers_software.py:139-141 | Fails exactly when every token is the pipeline's name; otherwise a space-free token other than the name, followed only by the name |
| Detection.GateClosed | brainlife_apps_containers_software.py:152 | The gate is closed exactly on an empty output, a lone newline, or an output ending in `:` or `:\n` |
| Detection.GateOpen | brainlife_apps_containers_software.py:152 | The gate only opens on an output that is neither empty nor a lone newline |
| Detection.PipfileVersion | brainlife_apps_containers_software.py:146-149 | Fails when no line or the last line mentions freesurfer-stats; otherwise the second space token of the line after the first mention, which holds no space |
| Detection.FieldSpaceFree | brainlife_apps_containers_software.py:149 | The second space token holds no space |
| Detection.FreesurferHome | brainlife_apps_containers_software.py:154-156 | The probe's last space token without newlines, cut right before its first `/bin`; the result holds neither |
| Detection.VersionPath | brainlife_apps_containers_software.py:154-157 | The path is the freesurfer home followed by `/VERSION`, and the home holds no `/bin` |
| Detection.FallbackVersion | brainlife_apps_containers_software.py:162-166 | The last space token of the first line, except that `info)` becomes `dev`; never holds a space or a newline |
| Detection.WorkbenchVersion | brainlife_apps_containers_software.py:168-172 | Fails exactly when no line holds `Version:`; otherwise the text after `Version:` on the first such line, with spaces trimmed at both ends |
| Detection.MrtrixVersion | brainlife_apps_containers_software.py:174-179 | Fails when no line names the binary; otherwise the second space token of the first such line after removing `==` and stripping spaces |
| Detection.DsiStudioVersion | brainlife_apps_containers_software.py:181-183 | A suffix of the first line holding no `": "`, which follows a `": "` whenever shorter than the line |
| Detection.PynetsVersion | brainlife_apps_containers_software.py:185-188 | `split(' ')[1]` of the first line: fails exactly when that line has no space; otherwise a space- and newline-free token that follows a space there |
| Detection.SecondFieldFollows | brainlife_apps_containers_software.py:188 | The separator and the second field sit right after the first field |
| Detection.FslVersionFile | brainlife_apps_containers_software.py:190-194 | The last file `find` reports, failing exactly when it reports none |
| Detection.ReadVersion | brainlife_apps_containers_software.py:153-197 | A gated package past the gate is never skipped; each package records what its rule reads (freesurfer the VERSION rule, connectome_workbench `-version`, mrtrix, dsistudio and pynets `--version`, fsl the first line of the last `fslversion` file `find` reports) and raises exactly where that rule fails; a package without a rule raises |
| Detection.FreesurferVersion | brainlife_apps_containers_software.py:153-166 | The VERSION file's last line when it is non-empty, and otherwise the `mri_vol2vol --version` fallback; never holds a newline |
| Detection.FreesurferNewlineEnded | brainlife_apps_containers_software.py:160-161 | A VERSION file ending in a newline always falls back to `mri_vol2vol --version` |
| Detection.Recording | brainlife_apps_containers_software.py:149-197 | A rule that fails raises, and one that reads a version records it; never skips |
| Detection.Detect | brainlife_apps_containers_software.py:127-199 | Only a pipeline or a listed package records a version; a package is skipped only as a pipeline, as freesurfer-stats, or behind a closed gate; past the gate, what a gated package yields is stated by `Detection.DetectGated` |
| Detection.DetectPipeline | brainlife_apps_containers_software.py:138-143 | A pipeline raises exactly when every token is its name; otherwise it records the last token other than its name when that is non-empty and is skipped when it is empty |
| Detection.DetectStats | brainlife_apps_containers_software.py:144-150 | freesurfer-stats is skipped exactly when its probe printed nothing; otherwise it records the Pipfile version, or raises where that rule fails |
| Detection.DetectGated | brainlife_apps_containers_software.py:151-197 | Every other listed package is skipped exactly when its probe fails the gate, and past the gate yields exactly what its package's rule (`Detection.ReadVersion`) reads from that probe |
| Detection.DetectUnknown | brainlife_apps_containers_software.py:151-197 | A package with no rule never records |
| Detection.CheckPackage | brainlife_apps_containers_software.py:127-199 | Fails exactly when the detector raises; keeps the table when it skips; appends exactly the `manual-inspection` row of the package and the version it recorded |
| Detection.Outcomes | brainlife_apps_containers_software.py:232-253 | One outcome per check, in check order, each that check's detector outcome |
| Detection.RecordedRows | brainlife_apps_containers_software.py:143 | A list of outcomes contributes at most one row per check |
| Detection.RecordedRowsAre | brainlife_apps_containers_software.py:197 | Every contributed row is the `manual-inspection` row of an outcome that recorded, and every recorded outcome contributes its row |
| Detection.AppendedRowsAre | brainlife_apps_containers_software.py:197 | Every row appended after the table is the `manual-inspection` row of an outcome that recorded |
| Detection.DetectedRows | brainlife_apps_containers_software.py:232-253 | The checks contribute at most one row each |
| Detection.DetectAll | brainlife_apps_containers_software.py:232-253 | A run of the checks that does not raise yields the table followed by the checks' detector rows in order |
| Detection.DetectAllRaises | brainlife_apps_containers_software.py:232-253 | The checks fail together exactly when one of them raises |
| Detection.DetectAllRows | brainlife_apps_containers_software.py:232-253 | The checks keep the starting table and append the detector rows in check order: at most one per check, each the `manual-inspection` row of a check that recorded, with that version |
| Detection.IdentifyBinaries | brainlife_apps_containers_software.py:202-261 | The loop over the checks yields exactly the container's inventory, or fails as it does |
| Detection.Inventory | brainlife_apps_containers_software.py:202-261 | A finished inventory comes from a container with `docker://` and a scanner table that pandas accepts, and tags every row with the container |
| Detection.InventoryRaises | brainlife_apps_containers_software.py:202-261 | The inventory fails exactly when the name has no `docker://`, the scanner table fails, or a selected check raises |
| Detection.InventoryRows | brainlife_apps_containers_software.py:202-261 | The inventory starts with the scanner rows unchanged, adds at most one `manual-inspection` row per check, and tags every row with the container |
| Detection.InventoryDetected | brainlife_apps_containers_software.py:202-261 | After the scanner rows, the inventory holds exactly the detector rows of the selected checks, in check order |
| Detection.InventoryPipeline | brainlife_apps_containers_software.py:216-220 | A qsiprep container gets at most one detector row, and it is qsiprep's |

## Left out

- Running programs: `git clone`, `git ls-remote`, `awk`, `docker run`, `docker rmi` and `syft`
  are not executed. Their standard output is an input string, or the function `run` from
  command line to output. Standard error and exit codes are ignored, as the script ignores them.
- The `awk /docker:/` filter itself is external; its output is an input.
- Working-directory changes and the removal of the checkout (`os.chdir`, `shutil.rmtree`) are
  filesystem effects and are not modelled.
- `create_apps_dateframe` and `main` (JSON and CSV loading, `merge`, `sorted(unique)`,
  `to_csv`) are table plumbing. The model's tables are sequences of records.
- `find_filename` is modelled only through its command line, which the fsl rule uses.
- Byte decoding and encoding are not modelled; everything is a string.
- The exception type is not distinguished. An `IndexError`, an unbound variable and a pandas
  error are all the same failure.
- Detection.Detect: the probe output in the pipeline branch is computed but never read, as in
  the script.
- PyStrings.Split: its own contract says only that there is at least one field. What the
  fields are is stated by `PyStrings.SplitJoin`, `PyStrings.SplitFields` and
  `PyStrings.SplitFieldsFree`.
- Detection.Dispatch: its own contract gives only the number of checks. Which checks they are is
  stated by `Detection.DispatchShape`.
- Detection.InventoryPipeline is stated for qsiprep. fmriprep and mriqc follow by
  `Detection.DispatchShape`, with the same argument.
