/**
 * The detectors `identify_binaries` runs after the generic scan: which packages a
 * container is probed for, and how each package's version is read off the
 * (normalized) output of the programs run inside the container.
 *
 * Running a program is a parameter `run` from a command line to the text it prints;
 * every `docker run` output goes through `Normalize` before it is read, as in the script.
 */
module Detection {
  import opened Options
  import opened PyStrings
  import opened Normalizers
  import opened GenericScan
  import Discovery

  /** One detector call: the package, the probe command and the probe's argument. */
  datatype Check = Check(package: string, command: string, file: string)

  /** What one detector call does to the table: append a version, append nothing, or raise. */
  datatype Outcome = Recorded(version: string) | Skipped | Raised

  /** One row of the finished table: a scanner or detector row tagged with its container. */
  datatype InventoryRow = InventoryRow(row: ScanRow, container: string)

  /** The `found_by` cell of every detector row. */
  const FoundBy: string := "manual-inspection"

  /** The packages probed in a container that is none of the monolithic pipelines, in order. */
  const Packages: seq<string> :=
    ["freesurfer", "connectome_workbench", "mrtrix", "dsistudio", "pynets", "freesurfer-stats", "fsl"]

  /** The pipelines whose container holds nothing else worth probing, by priority. */
  const Pipelines: seq<string> := ["qsiprep", "fmriprep", "mriqc"]

  /** A runner: the text a command line prints on standard output. */
  type Runner = seq<string> -> string

  // ---------------------------------------------------------------- dispatch

  /** The image name: `container.split('docker://')[1]`, `None` where that raises. */
  function Image(container: string): (r: Option<string>)
    ensures r.None? <==> !Contains(container, Discovery.DockerScheme)
    ensures r.Some? ==> !Contains(r.value, Discovery.DockerScheme)
    ensures r.Some? ==> r.value == Before(After(container, Discovery.DockerScheme), Discovery.DockerScheme)
  {
    SecondField(container, Discovery.DockerScheme)
  }

  /** The check of a monolithic pipeline: `<pipeline> --version`. */
  function PipelineCheck(pipeline: string): (c: Check)
    ensures c.package == pipeline && c.command == "--version" && c.file == ""
  {
    Check(pipeline, "--version", "")
  }

  /** The probe of one listed package: `whereis <binary>`, or `ls`/`find` for the two odd ones. */
  function ProbeFor(package: string): (c: Check)
    requires package in Packages
    ensures c.package == package
    ensures c.command == "ls" <==> package == "freesurfer-stats"
    ensures c.command == "find" <==> package == "fsl"
    ensures c.command != "ls" && c.command != "find" ==> c.command == "whereis"
    ensures package == "freesurfer" ==> c.file == "mri_vol2vol"
    ensures package == "connectome_workbench" ==> c.file == "wb_command"
    ensures package == "mrtrix" ==> c.file == "mrconvert"
    ensures package == "dsistudio" ==> c.file == "dsi_studio"
    ensures package == "pynets" ==> c.file == "pynets"
    ensures package == "freesurfer-stats" ==> c.file == "/freesurfer-stats"
    ensures package == "fsl" ==> c.file == "fslversion"
  {
    if package == "freesurfer" then Check(package, "whereis", "mri_vol2vol")
    else if package == "connectome_workbench" then Check(package, "whereis", "wb_command")
    else if package == "mrtrix" then Check(package, "whereis", "mrconvert")
    else if package == "dsistudio" then Check(package, "whereis", "dsi_studio")
    else if package == "pynets" then Check(package, "whereis", "pynets")
    else if package == "freesurfer-stats" then Check(package, "ls", "/freesurfer-stats")
    else Check(package, "find", "fslversion")
  }

  /** The checks run in a container, chosen from its name. */
  function Dispatch(container: string): (checks: seq<Check>)
    ensures |checks| == 1 || |checks| == |Packages|
  {
    if Contains(container, "qsiprep") then [PipelineCheck("qsiprep")]
    else if Contains(container, "fmriprep") then [PipelineCheck("fmriprep")]
    else if Contains(container, "mriqc") then [PipelineCheck("mriqc")]
    else seq(|Packages|, k requires 0 <= k < |Packages| => ProbeFor(Packages[k]))
  }

  /**
   * A container naming a pipeline gets that pipeline's check alone, the earliest of
   * qsiprep, fmriprep and mriqc winning; any other container gets the seven probes in
   * order, all `whereis` except `ls` for freesurfer-stats and `find` for fsl.
   */
  lemma DispatchShape(container: string)
    ensures var checks := Dispatch(container);
      (|checks| == 1 <==> exists k :: 0 <= k < |Pipelines| && Contains(container, Pipelines[k]))
    ensures var checks := Dispatch(container);
      |checks| == 1 ==> exists k :: (0 <= k < |Pipelines| && checks[0] == PipelineCheck(Pipelines[k]) &&
        Contains(container, Pipelines[k]) && forall j :: 0 <= j < k ==> !Contains(container, Pipelines[j]))
    ensures var checks := Dispatch(container);
      |checks| != 1 ==> forall k :: 0 <= k < |checks| ==>
        checks[k].package == Packages[k] && checks[k] == ProbeFor(Packages[k]) &&
        (checks[k].command == "whereis" <==> Packages[k] != "freesurfer-stats" && Packages[k] != "fsl")
  {
    var checks := Dispatch(container);
    if Contains(container, "qsiprep") {
      assert checks[0] == PipelineCheck(Pipelines[0]);
    } else if Contains(container, "fmriprep") {
      assert checks[0] == PipelineCheck(Pipelines[1]);
    } else if Contains(container, "mriqc") {
      assert checks[0] == PipelineCheck(Pipelines[2]);
    } else {
      assert |checks| == 7;
      forall k | 0 <= k < |Pipelines| ensures !Contains(container, Pipelines[k]) {
      }
    }
  }

  /**
   * The probe run in the container: `find / -type f -name <file>`, or `<command> <file>`;
   * either way the check's command applied to its file.
   */
  function ProbeCommand(check: Check): (argv: seq<string>)
    ensures |argv| >= 2 && argv[0] == check.command && argv[|argv| - 1] == check.file
    ensures check.command != "find" ==> |argv| == 2
  {
    if check.command == "find" then FindArgs(check.file) else [check.command, check.file]
  }

  /** The generic scanner's command line. */
  function SyftArgv(image: string): seq<string> {
    ["syft", image, "--scope", "all-layers", "-o", "template", "-t", "csv.tmpl"]
  }

  /** `docker run --rm <image> <command...>`. */
  function DockerRun(image: string, command: seq<string>): (argv: seq<string>)
    ensures |argv| >= 4 && argv[..4] == ["docker", "run", "--rm", image] && argv[4..] == command
  {
    ["docker", "run", "--rm", image] + command
  }

  function FindArgs(name: string): seq<string> {
    ["find", "/", "-type", "f", "-name", name]
  }

  /** What a program run in the container prints, banners removed. */
  function Output(run: Runner, image: string, command: seq<string>): (out: string)
    ensures out == Normalize(run(DockerRun(image, command)))
    ensures |out| <= |run(DockerRun(image, command))|
  {
    Normalize(run(DockerRun(image, command)))
  }

  // ------------------------------------------------------ reading versions

  /** The index of the first line containing `t`, or `|lines|` when there is none. */
  function FirstWith(lines: seq<string>, t: string): (i: nat)
    ensures i <= |lines|
    ensures forall j :: 0 <= j < i ==> !Contains(lines[j], t)
    ensures i < |lines| ==> Contains(lines[i], t)
  {
    if |lines| == 0 then 0
    else if Contains(lines[0], t) then 0
    else
      var i := FirstWith(lines[1..], t);
      assert forall j :: 1 <= j <= i ==> lines[j] == lines[1..][j - 1];
      i + 1
  }

  /** `[f for f in tokens if f != x][-1]`, `None` where that list is empty. */
  function LastOther(tokens: seq<string>, x: string): (r: Option<string>)
    ensures r.Some? ==> r.value != x
    decreases |tokens|
  {
    if |tokens| == 0 then None
    else
      var n := |tokens| - 1;
      if tokens[n] != x then Some(tokens[n]) else LastOther(tokens[..n], x)
  }

  /** The last token other than `x` is the one after which only `x` follows; there is none when all are `x`. */
  lemma {:induction false} LastOtherIs(tokens: seq<string>, x: string)
    ensures LastOther(tokens, x).None? <==> forall k :: 0 <= k < |tokens| ==> tokens[k] == x
    ensures LastOther(tokens, x).Some? ==> exists k :: (0 <= k < |tokens| &&
      tokens[k] == LastOther(tokens, x).value && forall j :: k < j < |tokens| ==> tokens[j] == x)
    decreases |tokens|
  {
    if |tokens| > 0 {
      var n := |tokens| - 1;
      if tokens[n] == x {
        var prefix := tokens[..n];
        LastOtherIs(prefix, x);
        assert forall k :: 0 <= k < n ==> tokens[k] == prefix[k];
        if LastOther(prefix, x).Some? {
          var k :| 0 <= k < n && prefix[k] == LastOther(prefix, x).value &&
            forall j :: k < j < n ==> prefix[j] == x;
          assert tokens[k] == prefix[k];
        }
      }
    }
  }

  /** The tokens of a pipeline's version output: newlines stripped from both ends, cut at spaces. */
  function VersionTokens(out: string): (r: seq<string>)
    ensures |r| >= 1 && forall k :: 0 <= k < |r| ==> ' ' !in r[k]
    ensures Join(r, " ") == Strip(out, '\n')
  {
    var p := Split(Strip(out, '\n'), " ");
    SplitJoin(Strip(out, '\n'), " ");
    SplitFieldsFree(Strip(out, '\n'), " ");
    forall k | 0 <= k < |p| ensures ' ' !in p[k] { ContainsChar(p[k], ' '); }
    p
  }

  /**
   * A pipeline's version: the last token of its `--version` output that is not the
   * pipeline's own name; `None` (an IndexError) when every token is the name.
   */
  function PipelineVersion(out: string, pipeline: string): (r: Option<string>)
    ensures var ts := VersionTokens(out);
      r.None? <==> forall k :: 0 <= k < |ts| ==> ts[k] == pipeline
    ensures var ts := VersionTokens(out);
      r.Some? ==> (r.value != pipeline && ' ' !in r.value &&
        exists k :: 0 <= k < |ts| && ts[k] == r.value && forall j :: k < j < |ts| ==> ts[j] == pipeline)
  {
    LastOtherIs(VersionTokens(out), pipeline);
    LastOther(VersionTokens(out), pipeline)
  }

  /**
   * The recording gate of the probed packages: the text after the probe output's last
   * colon is neither empty nor a lone newline (`whereis x` prints `x:` when it finds nothing).
   */
  predicate GateOpen(probe: string)
    ensures GateOpen(probe) ==> probe != "" && probe != "\n"
  {
    var tail := LastField(probe, ":");
    tail != "\n" && tail != ""
  }

  /** The gate is closed exactly on an empty output, a lone newline, or one ending in `:` or `:` and a newline. */
  lemma GateClosed(probe: string)
    ensures !GateOpen(probe) <==>
      probe == "" || probe == "\n" || EndsWith(probe, ":") || EndsWith(probe, ":\n")
  {
    var tail := LastField(probe, ":");
    var n := |probe|;
    ContainsChar(tail, ':');
    assert |tail| > 0 ==> tail[|tail| - 1] == probe[n - 1];
    assert |tail| >= 2 ==> tail[|tail| - 2] == probe[n - 2];
    assert |tail| == 1 ==> tail == probe[n - 1..];
    assert |tail| == 0 && n > 0 ==> OccursAt(probe, ":", n - 1);
    assert |tail| == 1 && n > 1 ==> OccursAt(probe, ":", n - 2);
    if EndsWith(probe, ":") {
      assert probe[n - 1] == ':';
    }
    if EndsWith(probe, ":\n") {
      assert probe[n - 2] == ':' && probe[n - 1] == '\n';
    }
    if tail == "" && probe != "" {
      assert probe[n - 1..] == ":";
    }
    if tail == "\n" && probe != "\n" {
      assert probe[n - 2..] == ":\n";
    }
  }

  /** The freesurfer-stats version: the second token of the line after the first line naming it. */
  function PipfileVersion(pipfile: string): (r: Option<string>)
    ensures var ls := Split(pipfile, "\n");
      Contains(ls[|ls| - 1], "freesurfer-stats") ==> r.None?
    ensures var ls := Split(pipfile, "\n");
      (forall k :: 0 <= k < |ls| ==> !Contains(ls[k], "freesurfer-stats")) ==> r.None?
    ensures var ls := Split(pipfile, "\n");
      r.Some? ==> ' ' !in r.value && exists i :: (0 <= i < |ls| - 1 &&
        Contains(ls[i], "freesurfer-stats") && (forall j :: 0 <= j < i ==> !Contains(ls[j], "freesurfer-stats")) &&
        SecondField(ls[i + 1], " ") == r)
    ensures var ls := Split(pipfile, "\n"); var i := FirstWith(ls, "freesurfer-stats");
      i < |ls| && !Contains(ls[|ls| - 1], "freesurfer-stats") ==> i < |ls| - 1 && r == SecondField(ls[i + 1], " ")
  {
    var ls := Split(pipfile, "\n");
    var i := FirstWith(ls, "freesurfer-stats");
    // The comprehension reads the line after every match, so a match on the last line raises.
    if Contains(ls[|ls| - 1], "freesurfer-stats") then None
    else if i == |ls| then None
    else
      var r := SecondField(ls[i + 1], " ");
      if r.Some? then
        FieldSpaceFree(ls[i + 1]);
        r
      else r
  }

  /** The second space token of a line holds no space. */
  lemma FieldSpaceFree(line: string)
    ensures SecondField(line, " ").Some? ==> ' ' !in SecondField(line, " ").value
  {
    if Contains(line, " ") {
      ContainsChar(SecondField(line, " ").value, ' ');
    }
  }

  /**
   * The freesurfer home: the probe's last space token with its newlines removed,
   * cut before the first `/bin`.
   */
  function FreesurferHome(probe: string): (r: string)
    ensures var p := RemoveAll(LastField(probe, " "), "\n");
      |r| <= |p| && r == p[..|r|] && (|r| < |p| ==> OccursAt(p, "/bin", |r|))
    ensures '\n' !in r && !Contains(r, "/bin")
  {
    var p := RemoveAll(LastField(probe, " "), "\n");
    assert "\n" == ['\n'];
    RemoveAllChar(LastField(probe, " "), '\n');
    if Contains(p, "/bin") then Before(p, "/bin") else p
  }

  /** The file freesurfer keeps its version in. */
  function VersionPath(probe: string): (r: string)
    ensures |r| >= 8 && r[|r| - 8..] == "/VERSION" && !Contains(r[..|r| - 8], "/bin")
    ensures r[..|r| - 8] == FreesurferHome(probe)
  {
    var home := FreesurferHome(probe);
    assert (home + "/VERSION")[..|home|] == home;
    home + "/VERSION"
  }

  /**
   * The fallback freesurfer version: the last space token of the first line of
   * `mri_vol2vol --version`, where the development build's `info)` reads as `dev`.
   */
  function FallbackVersion(out: string): (r: string)
    ensures ' ' !in r && '\n' !in r && r != "info)"
    ensures r == "dev" <==> LastField(FirstLine(out), " ") in {"info)", "dev"}
    ensures LastField(FirstLine(out), " ") != "info)" ==> r == LastField(FirstLine(out), " ")
  {
    var token := LastField(FirstLine(out), " ");
    ContainsChar(token, ' ');
    if token == "info)" then "dev" else token
  }

  /** No line holds `t`. */
  predicate NoLineHolds(lines: seq<string>, t: string) {
    forall k :: 0 <= k < |lines| ==> !Contains(lines[k], t)
  }

  /** No line holds `t` exactly when the search runs off the end. */
  lemma FirstWithNone(lines: seq<string>, t: string)
    ensures FirstWith(lines, t) == |lines| <==> NoLineHolds(lines, t)
  {
    var i := FirstWith(lines, t);
    if i < |lines| {
      assert Contains(lines[i], t);
    }
  }

  /** The text after the first `marker` up to the next, spaces stripped from both ends. */
  function TrimmedField(line: string, marker: string): (r: string)
    requires marker != [] && Contains(line, marker)
    ensures var field := SecondField(line, marker).value;
      TrimmedAt(field, ' ', |field| - |StripLeft(field, ' ')|, r) &&
      (r == [] || (r[0] != ' ' && r[|r| - 1] != ' '))
  {
    Strip(SecondField(line, marker).value, ' ')
  }

  /** The workbench version: the text after `Version:` on the first line holding it, spaces stripped. */
  function WorkbenchVersion(out: string): (r: Option<string>)
    ensures var ls := Split(out, "\n");
      r.None? <==> NoLineHolds(ls, "Version:")
    ensures var ls := Split(out, "\n"); var i := FirstWith(ls, "Version:");
      r.Some? ==> i < |ls| && var field := SecondField(ls[i], "Version:").value;
        TrimmedAt(field, ' ', |field| - |StripLeft(field, ' ')|, r.value) &&
        (r.value == [] || (r.value[0] != ' ' && r.value[|r.value| - 1] != ' '))
  {
    var ls := Split(out, "\n");
    var i := FirstWith(ls, "Version:");
    FirstWithNone(ls, "Version:");
    if i == |ls| then None
    else
      Some(TrimmedField(ls[i], "Version:"))
  }

  /**
   * The mrtrix version: the second space token of the first line naming the binary,
   * once `==` is removed and spaces are stripped.
   */
  function MrtrixVersion(out: string, binary: string): (r: Option<string>)
    ensures var ls := Split(out, "\n");
      (forall k :: 0 <= k < |ls| ==> !Contains(ls[k], binary)) ==> r.None?
    ensures var ls := Split(out, "\n"); var i := FirstWith(ls, binary);
      i < |ls| ==> r == SecondField(Strip(RemoveAll(ls[i], "=="), ' '), " ")
    ensures r.Some? ==> ' ' !in r.value
  {
    var ls := Split(out, "\n");
    var i := FirstWith(ls, binary);
    if i == |ls| then None
    else
      var line := Strip(RemoveAll(ls[i], "=="), ' ');
      FieldSpaceFree(line);
      SecondField(line, " ")
  }

  /** The DSI Studio version: what follows the last `: ` on the first line. */
  function DsiStudioVersion(out: string): (r: string)
    ensures var first := FirstLine(out);
      |r| <= |first| && r == first[|first| - |r|..] && '\n' !in r && !Contains(r, ": ")
    ensures var first := FirstLine(out);
      |r| < |first| ==> OccursAt(first, ": ", |first| - |r| - 2)
  {
    LastField(FirstLine(out), ": ")
  }

  /** The pynets version: the second space token of the first line. */
  function PynetsVersion(out: string): (r: Option<string>)
    ensures r.None? <==> ' ' !in FirstLine(out)
    ensures r.Some? ==> ' ' !in r.value && '\n' !in r.value
    ensures r.Some? ==> Contains(FirstLine(out), " " + r.value)
    ensures r == SecondField(FirstLine(out), " ")
  {
    var first := FirstLine(out);
    ContainsChar(first, ' ');
    FieldSpaceFree(first);
    var r := SecondField(first, " ");
    if r.Some? then
      SecondFieldFollows(first, " ");
      r
    else r
  }

  /** The second field of a line sits right after the line's first separator. */
  lemma SecondFieldFollows(line: string, sep: string)
    requires sep != [] && Contains(line, sep)
    ensures OccursAt(line, sep + SecondField(line, sep).value, |Before(line, sep)|)
    ensures Contains(line, sep + SecondField(line, sep).value)
    ensures forall c :: c in SecondField(line, sep).value ==> c in line
  {
    var b := Before(line, sep);
    var a := After(line, sep);
    var f := SecondField(line, sep).value;
    assert f == Before(a, sep);
    assert line == b + sep + a;
    assert a[..|f|] == f;
    assert line[|b|..|b| + |sep| + |f|] == sep + f;
    assert OccursAt(line, sep + f, |b|);
  }

  /** The file `find / -name fslversion` reports last, `None` (an IndexError) when it reports none. */
  function FslVersionFile(found: string): (r: Option<string>)
    ensures r.None? <==> |Lines(found)| == 0
    ensures r.Some? ==> '\n' !in r.value && r.value == Lines(found)[|Lines(found)| - 1]
  {
    var ls := Lines(found);
    if |ls| == 0 then None else Some(ls[|ls| - 1])
  }

  // ------------------------------------------------------------ recording

  /** The row a recorded version becomes. */
  function ManualRow(package: string, version: string): ScanRow {
    ScanRow(package, Some(version), Some(FoundBy))
  }

  /** A reading that raises where it found nothing, and is recorded otherwise. */
  function Recording(version: Option<string>): (o: Outcome)
    ensures !o.Skipped? && (o.Raised? <==> version.None?)
    ensures o.Recorded? ==> o.version == version.value
  {
    if version.None? then Raised else Recorded(version.value)
  }

  /**
   * What `check_neuroimage_package` does for one check: the probe always runs; a
   * pipeline records its version when non-empty; freesurfer-stats records when its
   * probe printed anything; the other packages record when the probe passes the gate.
   * A package the script has no reader for raises once past the gate.
   */
  function Detect(image: string, check: Check, run: Runner): (o: Outcome)
    ensures o.Recorded? ==> check.package in Pipelines || check.package in Packages
    ensures o.Skipped? ==> (check.package in Pipelines || check.package == "freesurfer-stats" ||
      !GateOpen(Output(run, image, ProbeCommand(check))))
  {
    var p := check.package;
    var probe := Output(run, image, ProbeCommand(check));
    if p in Pipelines then
      var v := PipelineVersion(Output(run, image, [p, check.command]), p);
      if v.None? then Raised else if v.value != "" then Recorded(v.value) else Skipped
    else if p == "freesurfer-stats" then
      if probe == "" then Skipped
      else Recording(PipfileVersion(Output(run, image, ["cat", check.file + "/Pipfile"])))
    else if !GateOpen(probe) then Skipped
    else ReadVersion(image, check, probe, run)
  }

  /**
   * The version of a probed package past the gate, read by that package's rule; a
   * package without a rule raises (its version is never bound).
   */
  function ReadVersion(image: string, check: Check, probe: string, run: Runner): (o: Outcome)
    ensures !o.Skipped?
    ensures check.package == "freesurfer" || check.package == "dsistudio" ==> o.Recorded? && '\n' !in o.version
    ensures check.package !in Packages ==> o.Raised?
    ensures check.package == "freesurfer" ==> o == Recorded(FreesurferVersion(image, probe, run))
    ensures check.package == "connectome_workbench" ==>
      o == Recording(WorkbenchVersion(Output(run, image, [check.file, "-version"])))
    ensures check.package == "mrtrix" ==>
      o == Recording(MrtrixVersion(Output(run, image, [check.file, "--version"]), check.file))
    ensures check.package == "dsistudio" ==>
      o == Recorded(DsiStudioVersion(Output(run, image, [check.file, "--version"])))
    ensures check.package == "pynets" ==>
      o == Recording(PynetsVersion(Output(run, image, [check.file, "--version"])))
    ensures var file := FslVersionFile(Output(run, image, FindArgs("fslversion")));
      check.package == "fsl" ==> ((o.Raised? <==> file.None?) &&
        (o.Recorded? ==> o.version == FirstLine(Output(run, image, ["cat", file.value]))))
  {
    var p := check.package;
    if p == "freesurfer" then Recorded(FreesurferVersion(image, probe, run))
    else if p == "connectome_workbench" then
      Recording(WorkbenchVersion(Output(run, image, [check.file, "-version"])))
    else if p == "mrtrix" then
      Recording(MrtrixVersion(Output(run, image, [check.file, "--version"]), check.file))
    else if p == "dsistudio" then
      Recorded(DsiStudioVersion(Output(run, image, [check.file, "--version"])))
    else if p == "pynets" then
      Recording(PynetsVersion(Output(run, image, [check.file, "--version"])))
    else if p == "fsl" then
      var file := FslVersionFile(Output(run, image, FindArgs("fslversion")));
      if file.None? then Raised else Recorded(FirstLine(Output(run, image, ["cat", file.value])))
    else Raised
  }

  /**
   * The freesurfer version: the last line of its VERSION file, or the fallback reading of
   * `mri_vol2vol --version` when that line is empty.
   */
  function FreesurferVersion(image: string, probe: string, run: Runner): (v: string)
    ensures '\n' !in v
    ensures var last := LastField(Output(run, image, ["cat", VersionPath(probe)]), "\n");
      last != "" ==> v == last
    ensures var last := LastField(Output(run, image, ["cat", VersionPath(probe)]), "\n");
      last == "" ==> v == FallbackVersion(Output(run, image, ["mri_vol2vol", "--version"]))
  {
    var last := LastField(Output(run, image, ["cat", VersionPath(probe)]), "\n");
    ContainsChar(last, '\n');
    if last != "" then last
    else FallbackVersion(Output(run, image, ["mri_vol2vol", "--version"]))
  }

  /**
   * A VERSION file that ends in a newline has an empty last line, so its version is
   * never used and the fallback reading decides.
   */
  lemma FreesurferNewlineEnded(image: string, probe: string, run: Runner)
    requires var out := Output(run, image, ["cat", VersionPath(probe)]); |out| > 0 && out[|out| - 1] == '\n'
    ensures FreesurferVersion(image, probe, run) == FallbackVersion(Output(run, image, ["mri_vol2vol", "--version"]))
  {
    var out := Output(run, image, ["cat", VersionPath(probe)]);
    var last := LastField(out, "\n");
    ContainsChar(last, '\n');
    assert out[|out| - 1..] == "\n";
    assert |last| > 0 ==> OccursAt(last, "\n", |last| - 1);
  }

  /**
   * A pipeline raises exactly when every token of its version output is its own name,
   * and records only a non-empty, space-free token other than its name.
   */
  lemma DetectPipeline(image: string, check: Check, run: Runner)
    requires check.package in Pipelines
    ensures var ts := VersionTokens(Output(run, image, [check.package, check.command]));
      Detect(image, check, run).Raised? <==> forall k :: 0 <= k < |ts| ==> ts[k] == check.package
    ensures var o := Detect(image, check, run);
      o.Recorded? ==> o.version != "" && o.version != check.package && ' ' !in o.version
    ensures var v := PipelineVersion(Output(run, image, [check.package, check.command]), check.package);
      v.Some? ==> Detect(image, check, run) == (if v.value != "" then Recorded(v.value) else Skipped)
  {
  }

  /** freesurfer-stats is skipped exactly when its `ls` probe printed nothing. */
  lemma DetectStats(image: string, check: Check, run: Runner)
    requires check.package == "freesurfer-stats"
    ensures Detect(image, check, run).Skipped? <==> Output(run, image, ProbeCommand(check)) == ""
    ensures var o := Detect(image, check, run); o.Recorded? ==> ' ' !in o.version
    ensures Output(run, image, ProbeCommand(check)) != "" ==>
      Detect(image, check, run) == Recording(PipfileVersion(Output(run, image, ["cat", check.file + "/Pipfile"])))
  {
    assert check.package !in Pipelines;
  }

  /**
   * Every other listed package is skipped exactly when its probe does not pass the gate, and
   * past the gate yields what its package's rule reads.
   */
  lemma DetectGated(image: string, check: Check, run: Runner)
    requires check.package in Packages && check.package != "freesurfer-stats"
    ensures Detect(image, check, run).Skipped? <==> !GateOpen(Output(run, image, ProbeCommand(check)))
    ensures var probe := Output(run, image, ProbeCommand(check));
      GateOpen(probe) ==> Detect(image, check, run) == ReadVersion(image, check, probe, run)
  {
    assert check.package !in Pipelines;
  }

  /** A package with no reader never records anything. */
  lemma DetectUnknown(image: string, check: Check, run: Runner)
    requires check.package !in Packages && check.package !in Pipelines
    ensures !Detect(image, check, run).Recorded?
  {
  }

  /** `check_neuroimage_package` on a table: at most one detector row is appended, or it raises. */
  function CheckPackage(table: seq<ScanRow>, image: string, check: Check, run: Runner): (r: Option<seq<ScanRow>>)
    ensures r.None? <==> Detect(image, check, run).Raised?
    ensures r.Some? ==> table <= r.value && |r.value| <= |table| + 1
    ensures r.Some? ==> forall k :: |table| <= k < |r.value| ==>
      r.value[k].package == check.package && r.value[k].version.Some? && r.value[k].foundBy == Some(FoundBy)
    ensures Detect(image, check, run).Skipped? ==> r == Some(table)
    ensures var o := Detect(image, check, run);
      o.Recorded? ==> r == Some(table + [ManualRow(check.package, o.version)])
  {
    var o := Detect(image, check, run);
    if o.Raised? then None
    else if o.Skipped? then Some(table)
    else Some(table + [ManualRow(check.package, o.version)])
  }

  /** The outcome of every check, in check order. */
  function Outcomes(image: string, checks: seq<Check>, run: Runner): (os: seq<Outcome>)
    ensures |os| == |checks| && forall k :: 0 <= k < |checks| ==> os[k] == Detect(image, checks[k], run)
  {
    seq(|checks|, k requires 0 <= k < |checks| => Detect(image, checks[k], run))
  }

  /** The rows a list of outcomes contributes, in order: one per recorded version. */
  function RecordedRows(checks: seq<Check>, outcomes: seq<Outcome>): (rows: seq<ScanRow>)
    requires |outcomes| == |checks|
    ensures |rows| <= |checks|
    decreases |checks|
  {
    if |checks| == 0 then []
    else
      (if outcomes[0].Recorded? then [ManualRow(checks[0].package, outcomes[0].version)] else [])
      + RecordedRows(checks[1..], outcomes[1..])
  }

  /** Outcome `j` recorded a version and `row` is its `manual-inspection` row. */
  predicate RecordedAt(checks: seq<Check>, outcomes: seq<Outcome>, j: int, row: ScanRow)
  {
    0 <= j < |checks| && |outcomes| == |checks| && outcomes[j].Recorded? &&
    row == ManualRow(checks[j].package, outcomes[j].version)
  }

  /** `row` is the `manual-inspection` row of some outcome that recorded a version. */
  predicate RecordedRow(checks: seq<Check>, outcomes: seq<Outcome>, row: ScanRow)
  {
    exists j :: 0 <= j < |checks| && RecordedAt(checks, outcomes, j, row)
  }

  /** Unfolding the rows of a non-empty list of outcomes once. */
  lemma RecordedRowsCons(checks: seq<Check>, outcomes: seq<Outcome>)
    requires |outcomes| == |checks| > 0
    ensures RecordedRows(checks, outcomes) ==
      (if outcomes[0].Recorded? then [ManualRow(checks[0].package, outcomes[0].version)] else [])
      + RecordedRows(checks[1..], outcomes[1..])
  {
  }

  /**
   * The recorded rows are exactly the `manual-inspection` rows of the recorded outcomes,
   * each with the version that outcome carries.
   */
  lemma {:induction false} RecordedRowsAre(checks: seq<Check>, outcomes: seq<Outcome>)
    requires |outcomes| == |checks|
    ensures var rows := RecordedRows(checks, outcomes);
      forall k :: 0 <= k < |rows| ==> RecordedRow(checks, outcomes, rows[k])
    ensures forall j :: 0 <= j < |checks| && outcomes[j].Recorded? ==>
      ManualRow(checks[j].package, outcomes[j].version) in RecordedRows(checks, outcomes)
    decreases |checks|
  {
    if |checks| > 0 {
      var rest := checks[1..];
      var later := outcomes[1..];
      RecordedRowsAre(rest, later);
      var head := if outcomes[0].Recorded? then [ManualRow(checks[0].package, outcomes[0].version)] else [];
      var tail := RecordedRows(rest, later);
      var rows := RecordedRows(checks, outcomes);
      RecordedRowsCons(checks, outcomes);
      assert rows == head + tail;
      forall k | 0 <= k < |rows| ensures RecordedRow(checks, outcomes, rows[k])
      {
        if k < |head| {
          assert RecordedAt(checks, outcomes, 0, rows[k]);
        } else {
          assert rows[k] == tail[k - |head|];
          assert RecordedRow(rest, later, tail[k - |head|]);
          var j :| 0 <= j < |rest| && RecordedAt(rest, later, j, tail[k - |head|]);
          assert rest[j] == checks[j + 1] && later[j] == outcomes[j + 1];
          assert RecordedAt(checks, outcomes, j + 1, rows[k]);
        }
      }
      forall j | 0 <= j < |checks| && outcomes[j].Recorded?
        ensures ManualRow(checks[j].package, outcomes[j].version) in rows
      {
        if j > 0 {
          assert checks[j] == rest[j - 1] && outcomes[j] == later[j - 1];
        }
      }
    }
  }

  /** Appending one check's rows and then the rest's is appending all of them. */
  lemma AppendRecorded(table: seq<ScanRow>, next: seq<ScanRow>, checks: seq<Check>, outcomes: seq<Outcome>)
    requires |outcomes| == |checks| > 0
    requires next == table + (if outcomes[0].Recorded? then [ManualRow(checks[0].package, outcomes[0].version)] else [])
    ensures next + RecordedRows(checks[1..], outcomes[1..]) == table + RecordedRows(checks, outcomes)
  {
    RecordedRowsCons(checks, outcomes);
  }

  /** The outcomes of all but the first check are the outcomes after the first. */
  lemma OutcomesTail(image: string, checks: seq<Check>, run: Runner)
    requires |checks| > 0
    ensures Outcomes(image, checks, run)[1..] == Outcomes(image, checks[1..], run)
  {
    var os := Outcomes(image, checks, run);
    var later := Outcomes(image, checks[1..], run);
    forall k | 0 <= k < |later| ensures os[1..][k] == later[k] {
      assert checks[1..][k] == checks[k + 1];
    }
  }

  /** The detector rows the checks contribute, in check order. */
  function DetectedRows(image: string, checks: seq<Check>, run: Runner): (rows: seq<ScanRow>)
    ensures |rows| <= |checks|
  {
    RecordedRows(checks, Outcomes(image, checks, run))
  }

  /** Running the checks in order on a table, stopping at the first that raises. */
  function DetectAll(table: seq<ScanRow>, image: string, checks: seq<Check>, run: Runner): (r: Option<seq<ScanRow>>)
    ensures r.Some? ==> r.value == table + DetectedRows(image, checks, run)
    decreases |checks|
  {
    if |checks| == 0 then Some(table)
    else
      var next := CheckPackage(table, image, checks[0], run);
      if next.None? then None
      else
        var os := Outcomes(image, checks, run);
        OutcomesTail(image, checks, run);
        AppendRecorded(table, next.value, checks, os);
        DetectAll(next.value, image, checks[1..], run)
  }

  /** Some check raises exactly when the first does or one of the rest does. */
  lemma SomeRaises(checks: seq<Check>, f: Check -> Outcome)
    requires |checks| > 0
    ensures (exists k :: 0 <= k < |checks| && f(checks[k]).Raised?) <==>
      f(checks[0]).Raised? || exists k :: 0 <= k < |checks| - 1 && f(checks[1..][k]).Raised?
  {
    assert forall k :: 1 <= k < |checks| ==> checks[k] == checks[1..][k - 1];
  }

  /** The checks fail together exactly when one of them raises. */
  lemma {:induction false} DetectAllRaises(table: seq<ScanRow>, image: string, checks: seq<Check>, run: Runner)
    ensures DetectAll(table, image, checks, run).None? <==>
      exists k :: 0 <= k < |checks| && Detect(image, checks[k], run).Raised?
    decreases |checks|
  {
    if |checks| > 0 {
      var next := CheckPackage(table, image, checks[0], run);
      SomeRaises(checks, c => Detect(image, c, run));
      if next.Some? {
        DetectAllRaises(next.value, image, checks[1..], run);
      }
    }
  }

  /** Every row appended after `table` is the `manual-inspection` row of a recorded outcome. */
  lemma AppendedRowsAre(table: seq<ScanRow>, rows: seq<ScanRow>, checks: seq<Check>, outcomes: seq<Outcome>)
    requires |outcomes| == |checks|
    requires rows == table + RecordedRows(checks, outcomes)
    ensures forall k :: |table| <= k < |rows| ==> RecordedRow(checks, outcomes, rows[k])
  {
    RecordedRowsAre(checks, outcomes);
    forall k | |table| <= k < |rows| ensures RecordedRow(checks, outcomes, rows[k]) {
      assert rows[k] == RecordedRows(checks, outcomes)[k - |table|];
    }
  }

  /**
   * The checks keep the table they start from and append the detector rows in check order,
   * at most one per check, each the `manual-inspection` row of a check that recorded.
   */
  lemma DetectAllRows(table: seq<ScanRow>, image: string, checks: seq<Check>, run: Runner)
    ensures var r := DetectAll(table, image, checks, run);
      r.Some? ==> r.value == table + DetectedRows(image, checks, run)
    ensures var r := DetectAll(table, image, checks, run);
      r.Some? ==> table <= r.value && |r.value| <= |table| + |checks|
    ensures var r := DetectAll(table, image, checks, run);
      r.Some? ==> forall k :: |table| <= k < |r.value| ==>
        RecordedRow(checks, Outcomes(image, checks, run), r.value[k])
  {
    var r := DetectAll(table, image, checks, run);
    if r.Some? {
      AppendedRowsAre(table, r.value, checks, Outcomes(image, checks, run));
    }
  }

  /** The container column: every row tagged with the container it came from. */
  function Tag(rows: seq<ScanRow>, container: string): (r: seq<InventoryRow>)
    ensures |r| == |rows| && forall k :: 0 <= k < |r| ==> r[k].row == rows[k] && r[k].container == container
  {
    seq(|rows|, k requires 0 <= k < |rows| => InventoryRow(rows[k], container))
  }

  /**
   * `identify_binaries`: the scanner's table, then the detector rows of the checks the
   * container's name selects, every row tagged with the container; `None` where the
   * image name, the scanner table or a detector raises.
   */
  function Inventory(container: string, run: Runner): (r: Option<seq<InventoryRow>>)
    ensures r.Some? ==> Image(container).Some? && ScanTable(run(SyftArgv(Image(container).value))).Some?
    ensures r.Some? ==> forall k :: 0 <= k < |r.value| ==> r.value[k].container == container
  {
    var image := Image(container);
    if image.None? then None
    else
      var scan := ScanTable(run(SyftArgv(image.value)));
      if scan.None? then None
      else
        var rows := DetectAll(scan.value, image.value, Dispatch(container), run);
        if rows.None? then None else Some(Tag(rows.value, container))
  }

  /** `identify_binaries` growing its table one check at a time. */
  method IdentifyBinaries(container: string, run: Runner) returns (table: Option<seq<InventoryRow>>)
    ensures table == Inventory(container, run)
  {
    var image := Image(container);
    if image.None? {
      return None;
    }
    var scan := ScanTable(run(SyftArgv(image.value)));
    if scan.None? {
      return None;
    }
    var checks := Dispatch(container);
    var rows := scan.value;
    var i := 0;
    while i < |checks|
      invariant 0 <= i <= |checks|
      invariant DetectAll(scan.value, image.value, checks, run) == DetectAll(rows, image.value, checks[i..], run)
    {
      assert checks[i..][1..] == checks[i + 1..];
      var next := CheckPackage(rows, image.value, checks[i], run);
      if next.None? {
        return None;
      }
      rows := next.value;
      i := i + 1;
    }
    return Some(Tag(rows, container));
  }

  /**
   * The table is refused exactly when the container name has no `docker://`, the
   * scanner's table is refused, or one of the selected checks raises.
   */
  lemma InventoryRaises(container: string, run: Runner)
    ensures Inventory(container, run).None? <==>
      !Contains(container, Discovery.DockerScheme) ||
      ScanTable(run(SyftArgv(Image(container).value))).None? ||
      exists k :: 0 <= k < |Dispatch(container)| && Detect(Image(container).value, Dispatch(container)[k], run).Raised?
  {
    var image := Image(container);
    if image.Some? {
      var scan := ScanTable(run(SyftArgv(image.value)));
      if scan.Some? {
        DetectAllRaises(scan.value, image.value, Dispatch(container), run);
      }
    }
  }

  /**
   * A finished table starts with the scanner's rows unchanged, follows them with
   * `manual-inspection` rows, at most one per selected check, and tags every row with its container.
   */
  lemma InventoryRows(container: string, run: Runner)
    ensures var r := Inventory(container, run);
      r.Some? ==> var scan := ScanTable(run(SyftArgv(Image(container).value))).value;
        |scan| <= |r.value| <= |scan| + |Dispatch(container)| &&
        (forall k :: 0 <= k < |r.value| ==> r.value[k].container == container) &&
        (forall k :: 0 <= k < |scan| ==> r.value[k].row == scan[k]) &&
        (forall k :: |scan| <= k < |r.value| ==> r.value[k].row.foundBy == Some(FoundBy))
  {
    var image := Image(container);
    if image.Some? {
      var scan := ScanTable(run(SyftArgv(image.value)));
      if scan.Some? {
        var checks := Dispatch(container);
        DetectAllRows(scan.value, image.value, checks, run);
        var rows := DetectAll(scan.value, image.value, checks, run);
        if rows.Some? {
          var r := Tag(rows.value, container);
          assert Inventory(container, run) == Some(r);
          var os := Outcomes(image.value, checks, run);
          forall k | |scan.value| <= k < |r| ensures r[k].row.foundBy == Some(FoundBy) {
            assert RecordedRow(checks, os, rows.value[k]);
          }
        }
      }
    }
  }

  /** After the scanner's rows, a finished table holds the detector rows of the selected checks, in check order. */
  lemma InventoryDetected(container: string, run: Runner)
    ensures var r := Inventory(container, run);
      r.Some? ==> var scan := ScanTable(run(SyftArgv(Image(container).value))).value;
        var found := DetectedRows(Image(container).value, Dispatch(container), run);
        |r.value| == |scan| + |found| && forall k :: |scan| <= k < |r.value| ==> r.value[k].row == found[k - |scan|]
  {
    var image := Image(container);
    if image.Some? {
      var scan := ScanTable(run(SyftArgv(image.value)));
      if scan.Some? {
        var checks := Dispatch(container);
        DetectAllRows(scan.value, image.value, checks, run);
        var rows := DetectAll(scan.value, image.value, checks, run);
        if rows.Some? {
          assert Inventory(container, run) == Some(Tag(rows.value, container));
        }
      }
    }
  }

  /** A container naming a pipeline gets at most one detector row, and it is that pipeline's. */
  lemma InventoryPipeline(container: string, run: Runner)
    requires Contains(container, "qsiprep")
    ensures var r := Inventory(container, run);
      r.Some? ==> var scan := ScanTable(run(SyftArgv(Image(container).value))).value;
        |r.value| <= |scan| + 1 && forall k :: |scan| <= k < |r.value| ==> r.value[k].row.package == "qsiprep"
  {
    var image := Image(container);
    if image.Some? {
      var scan := ScanTable(run(SyftArgv(image.value)));
      if scan.Some? {
        var checks := Dispatch(container);
        assert checks == [PipelineCheck("qsiprep")];
        DetectAllRows(scan.value, image.value, checks, run);
        var rows := DetectAll(scan.value, image.value, checks, run);
        if rows.Some? {
          var r := Tag(rows.value, container);
          assert Inventory(container, run) == Some(r);
          forall k | |scan.value| <= k < |r| ensures r[k].row.package == "qsiprep" {
            assert r[k].row == rows.value[k];
          }
        }
      }
    }
  }
}
