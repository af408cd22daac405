/**
 * The two output-quirk normalizers applied to every captured container output:
 * a container whose entry point is a small command menu prints a usage banner,
 * and FSL containers print a licence citation. Each normalizer looks for a short
 * marker and, when it is present, deletes every copy of its full banner.
 */
module Normalizers {
  import opened PyStrings

  /** The marker `check_if_python` looks for. */
  const PythonMarker: string := "Run a python command"

  /** The usage banner of the command-menu entry point, removed verbatim. */
  const PythonBanner: string := PythonHead + PythonMarker + PythonTail

  /** The banner up to the python line's description. */
  const PythonHead: string :=
    "\nUsage: docker run <imagename> COMMAND\n"
    + "\nCommands\n\npython     : "

  /** The banner after the python line's description. */
  const PythonTail: string :=
    "\nbash       : Start a bash shell\n"
    + "vtk_ccmake : Prepare VTK to build with ccmake. This happens in the container (not during image build)\n"
    + "vtk_make   : Build the VTK library\n"
    + "help       : Show this message\n\n"

  /** The marker `check_fsl_citation` looks for. */
  const CitationMarker: string :=
    "Some packages in this Docker container " + "are non-free"

  /** The FSL licence citation, removed verbatim: the marker line and two more. */
  const CitationBanner: string := CitationMarker + CitationTail

  const CitationTail: string :=
    "\nIf you are considering commercial use of this container, please consult the relevant license:\n"
    + "https://fsl.fmrib.ox.ac.uk/fsl/fslwiki/Licence\n"

  /** The python marker sits inside its banner, right after the head. */
  lemma PythonMarkerInBanner()
    ensures Contains(PythonBanner, PythonMarker)
  {
    var n := |PythonHead|;
    assert PythonBanner[n..n + |PythonMarker|] == PythonMarker;
    assert OccursAt(PythonBanner, PythonMarker, n);
  }

  /** The citation banner starts with its marker. */
  lemma CitationMarkerInBanner()
    ensures Contains(CitationBanner, CitationMarker)
  {
    assert CitationBanner[..|CitationMarker|] == CitationMarker;
    assert OccursAt(CitationBanner, CitationMarker, 0);
  }

  /** Without the python marker there is no python banner to remove. */
  lemma PythonGuard(out: string)
    ensures !Contains(out, PythonMarker) ==> !Contains(out, PythonBanner)
  {
    if Contains(out, PythonBanner) {
      PythonMarkerInBanner();
      ContainsTransitive(out, PythonBanner, PythonMarker);
    }
  }

  /** Without the citation marker there is no citation to remove. */
  lemma CitationGuard(out: string)
    ensures !Contains(out, CitationMarker) ==> !Contains(out, CitationBanner)
  {
    if Contains(out, CitationBanner) {
      CitationMarkerInBanner();
      ContainsTransitive(out, CitationBanner, CitationMarker);
    }
  }

  /**
   * `check_if_python`: when the marker occurs, every copy of the banner is removed.
   * The marker test never changes the outcome, since a banner always carries its marker.
   */
  function CheckIfPython(out: string): (r: string)
    ensures !Contains(out, PythonMarker) ==> r == out
    ensures r == RemoveAll(out, PythonBanner)
    ensures |r| <= |out|
  {
    RemoveAllChanges(out, PythonBanner);
    PythonGuard(out);
    if Contains(out, PythonMarker) then RemoveAll(out, PythonBanner)
    else out
  }

  /** `check_fsl_citation`: when the marker occurs, every copy of the citation is removed. */
  function CheckFslCitation(out: string): (r: string)
    ensures !Contains(out, CitationMarker) ==> r == out
    ensures r == RemoveAll(out, CitationBanner)
    ensures |r| <= |out|
  {
    RemoveAllChanges(out, CitationBanner);
    CitationGuard(out);
    if Contains(out, CitationMarker) then RemoveAll(out, CitationBanner)
    else out
  }

  /** `check_fsl_python`: the citation is stripped first, then the python banner. */
  function Normalize(out: string): (r: string)
    ensures r == RemoveAll(RemoveAll(out, CitationBanner), PythonBanner)
    ensures |r| <= |out|
  {
    CheckIfPython(CheckFslCitation(out))
  }

  /** Normalizing leaves a text alone exactly when neither banner occurs in it. */
  lemma NormalizeFixed(out: string)
    ensures Normalize(out) == out <==> !Contains(out, CitationBanner) && !Contains(out, PythonBanner)
  {
    RemoveAllChanges(out, CitationBanner);
    RemoveAllChanges(out, PythonBanner);
    RemoveAllChanges(RemoveAll(out, CitationBanner), PythonBanner);
  }

  /** A citation printed ahead of the real output is dropped without trace. */
  lemma NormalizeDropsLeadingCitation(out: string)
    ensures Normalize(CitationBanner + out) == Normalize(out)
  {
    RemoveAllLeading(CitationBanner, out);
  }

  /**
   * Normalizing is not idempotent: one banner cut open by a second copy closes up
   * into a fresh banner once the inner copy is removed, and a second pass removes it.
   */
  lemma CheckIfPythonNotIdempotent()
    ensures var x := PythonBanner[..1] + PythonBanner + PythonBanner[1..];
      CheckIfPython(x) == PythonBanner && CheckIfPython(CheckIfPython(x)) == ""
  {
    assert PythonHead[0] == '\n' && PythonHead[1] == 'U';
    assert PythonBanner[0] == PythonHead[0] && PythonBanner[1] == PythonHead[1];
    RemoveAllSplices(PythonBanner);
  }

  /** The same splice defeats a single pass of the citation stripper. */
  lemma CheckFslCitationNotIdempotent()
    ensures var x := CitationBanner[..1] + CitationBanner + CitationBanner[1..];
      CheckFslCitation(x) == CitationBanner && CheckFslCitation(CheckFslCitation(x)) == ""
  {
    assert CitationMarker[0] == 'S' && CitationMarker[1] == 'o';
    assert CitationBanner[0] == CitationMarker[0] && CitationBanner[1] == CitationMarker[1];
    RemoveAllSplices(CitationBanner);
  }
}
