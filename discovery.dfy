/**
 * Container discovery for one app repository: the `docker://` references named in
 * its main descriptor (one checkout per branch), deduplicated, and the branch
 * names read from `git ls-remote --heads`. The output of `awk /docker:/` on the
 * descriptor and of `git ls-remote` come in as text.
 */
module Discovery {
  import opened Options
  import opened PyStrings

  const DockerScheme: string := "docker://"

  /** The separator of a head reference in `git ls-remote --heads` output. */
  const HeadsMarker: string := "/heads/"

  /**
   * `docker://` followed by `path` sits at index `i` of `line` and runs up to the end of the
   * line, a space, or another `docker://`; the path holds no space and no second scheme.
   */
  ghost predicate RefAt(line: string, i: int, path: string) {
    ' ' !in path && !Contains(path, DockerScheme)
    && OccursAt(line, DockerScheme + path, i)
    && var e := i + |DockerScheme| + |path|;
      e == |line| || line[e] == ' ' || OccursAt(line, DockerScheme, e)
  }

  /**
   * The reference on one descriptor line: `docker://` followed by the text after the first
   * `docker://` up to the next space; `None` where Python raises because there is none.
   */
  function ContainerRef(line: string): (r: Option<string>)
    ensures r.None? <==> !Contains(line, DockerScheme)
    ensures r.Some? ==> |r.value| >= |DockerScheme| && r.value[..|DockerScheme|] == DockerScheme
    ensures r.Some? ==> RefAt(line, |Before(line, DockerScheme)|, r.value[|DockerScheme|..])
  {
    match SecondField(line, DockerScheme)
    case None => None
    case Some(x) =>
      RefShape(line, x);
      SplitFields(x, " ");
      assert (DockerScheme + Before(x, " "))[|DockerScheme|..] == Before(x, " ");
      Some(DockerScheme + Split(x, " ")[0])
  }

  /** The path cut from the second field has the shape RefAt describes. */
  lemma RefShape(line: string, x: string)
    requires Contains(line, DockerScheme) && x == Before(After(line, DockerScheme), DockerScheme)
    ensures RefAt(line, |Before(line, DockerScheme)|, Before(x, " "))
  {
    var b := Before(line, DockerScheme);
    var a := After(line, DockerScheme);
    var y := Before(x, " ");
    assert line == b + DockerScheme + a;
    assert |x| <= |a| && x == a[..|x|];
    assert |x| == |a| || OccursAt(a, DockerScheme, |x|);
    RefPath(x);
    assert y == a[..|y|];
    RefOccurs(line, b, a, y);
    RefEnds(line, b, a, x, y);
  }

  /** The path is the second field up to its first space: free of spaces and of `docker://`. */
  lemma RefPath(x: string)
    requires !Contains(x, DockerScheme)
    ensures ' ' !in Before(x, " ") && !Contains(Before(x, " "), DockerScheme)
    ensures |Before(x, " ")| == |x| || x[|Before(x, " ")|] == ' '
  {
    var y := Before(x, " ");
    assert " " == [' '];
    ContainsChar(y, ' ');
    if Contains(y, DockerScheme) {
      ContainsPrefix(x, |y|, DockerScheme);
    }
    if |y| < |x| {
      assert x[|y|] == x[|y|..|y| + 1][0];
    }
  }

  /** The scheme and the path sit right after the text before the first scheme. */
  lemma RefOccurs(line: string, b: string, a: string, y: string)
    requires line == b + DockerScheme + a
    requires |y| <= |a| && y == a[..|y|]
    ensures OccursAt(line, DockerScheme + y, |b|)
  {
    assert line[|b|..|b| + |DockerScheme| + |y|] == DockerScheme + y;
  }

  /** After the path comes the end of the line, a space or the next scheme. */
  lemma RefEnds(line: string, b: string, a: string, x: string, y: string)
    requires line == b + DockerScheme + a
    requires |x| <= |a| && x == a[..|x|] && (|x| == |a| || OccursAt(a, DockerScheme, |x|))
    requires |y| <= |x| && y == x[..|y|] && (|y| == |x| || x[|y|] == ' ')
    ensures var e := |b| + |DockerScheme| + |y|;
      e == |line| || line[e] == ' ' || OccursAt(line, DockerScheme, e)
  {
    var e := |b| + |DockerScheme| + |y|;
    if |y| < |x| {
      assert line[e] == a[|y|] == x[|y|];
    } else if |x| < |a| {
      OccursInSuffix(line, |b| + |DockerScheme|, DockerScheme, |x|);
    }
  }

  /** The first index at which `x` occurs: Python's `s.index(x)`. */
  function IndexOf(s: seq<string>, x: string): (i: nat)
    requires x in s
    ensures i < |s| && s[i] == x && x !in s[..i]
  {
    if s[0] == x then 0
    else
      var j := IndexOf(s[1..], x);
      assert s[1..][..j] == s[1..j + 1];
      j + 1
  }

  /** No element occurs twice. */
  predicate NoDups(s: seq<string>) {
    forall i, j :: 0 <= i < j < |s| ==> s[i] != s[j]
  }

  /** The comprehension of the dedup from index `i` on: each element kept at its first index only. */
  function KeepFirsts(c: seq<string>, i: nat): (r: seq<string>)
    requires i <= |c|
    ensures |r| <= |c| - i
    ensures forall x :: x in r ==> x in c[i..]
    decreases |c| - i
  {
    if i == |c| then []
    else (if IndexOf(c, c[i]) == i then [c[i]] else []) + KeepFirsts(c, i + 1)
  }

  /** `identify_docker_containers`' dedup: every element kept at its first occurrence only. */
  function Dedup(c: seq<string>): (r: seq<string>)
    ensures forall x :: x in r <==> x in c
    ensures NoDups(r)
    ensures forall a, b :: 0 <= a < b < |r| ==> IndexOf(c, r[a]) < IndexOf(c, r[b])
  {
    KeepFirstsMembers(c, 0);
    KeepFirstsOrder(c, 0);
    KeepFirsts(c, 0)
  }

  /** From index `i` on, the dedup holds exactly the elements first seen at or after `i`. */
  lemma {:induction false} KeepFirstsMembers(c: seq<string>, i: nat)
    requires i <= |c|
    ensures forall x :: x in KeepFirsts(c, i) <==> x in c && IndexOf(c, x) >= i
    decreases |c| - i
  {
    if i < |c| {
      KeepFirstsMembers(c, i + 1);
      var tail := KeepFirsts(c, i + 1);
      var head := if IndexOf(c, c[i]) == i then [c[i]] else [];
      assert KeepFirsts(c, i) == head + tail;
      forall x | x in c && IndexOf(c, x) >= i
        ensures x in KeepFirsts(c, i)
      {
        if IndexOf(c, x) == i {
          assert x == c[i] && x in head;
        } else {
          assert x in tail;
        }
      }
    }
  }

  /** From index `i` on, the dedup lists its elements in the order of their first occurrence. */
  lemma {:induction false} KeepFirstsOrder(c: seq<string>, i: nat)
    requires i <= |c|
    ensures forall k :: 0 <= k < |KeepFirsts(c, i)| ==> KeepFirsts(c, i)[k] in c
    ensures forall a, b :: 0 <= a < b < |KeepFirsts(c, i)| ==>
      IndexOf(c, KeepFirsts(c, i)[a]) < IndexOf(c, KeepFirsts(c, i)[b])
    decreases |c| - i
  {
    if i < |c| {
      KeepFirstsOrder(c, i + 1);
      KeepFirstsMembers(c, i + 1);
      var tail := KeepFirsts(c, i + 1);
      var head := if IndexOf(c, c[i]) == i then [c[i]] else [];
      assert KeepFirsts(c, i) == head + tail;
      forall a, b | 0 <= a < b < |head + tail|
        ensures IndexOf(c, (head + tail)[a]) < IndexOf(c, (head + tail)[b])
      {
        if a < |head| {
          assert (head + tail)[b] in tail;
        } else {
          assert (head + tail)[a] == tail[a - |head|] && (head + tail)[b] == tail[b - |head|];
        }
      }
    }
  }

  /** Dedup does not touch a sequence without repetitions. */
  lemma {:induction false} DedupNoDups(c: seq<string>)
    requires NoDups(c)
    ensures Dedup(c) == c
  {
    forall i | 0 <= i < |c| ensures IndexOf(c, c[i]) == i {
    }
    KeepFirstsAll(c, 0);
  }

  lemma {:induction false} KeepFirstsAll(c: seq<string>, i: nat)
    requires i <= |c|
    requires forall k :: 0 <= k < |c| ==> IndexOf(c, c[k]) == k
    ensures KeepFirsts(c, i) == c[i..]
    decreases |c| - i
  {
    if i < |c| {
      KeepFirstsAll(c, i + 1);
      assert c[i..] == [c[i]] + c[i + 1..];
    }
  }

  /** Deduplicating twice is deduplicating once. */
  lemma DedupIdempotent(c: seq<string>)
    ensures Dedup(Dedup(c)) == Dedup(c)
  {
    DedupNoDups(Dedup(c));
  }

  /** `identify_docker_containers`: the references of the awk output's lines, deduplicated. */
  function DockerContainers(awkOut: string): (r: Option<seq<string>>)
    ensures r.Some? ==> NoDups(r.value)
  {
    match AllSome(ContainerRef, Lines(awkOut))
    case None => None
    case Some(refs) => Some(Dedup(refs))
  }

  /**
   * The awk output yields containers exactly when every line holds `docker://`, and then
   * they are the references of its lines, each once.
   */
  lemma DockerContainersRefs(awkOut: string)
    ensures var lines := Lines(awkOut);
      DockerContainers(awkOut).Some? <==> forall k :: 0 <= k < |lines| ==> Contains(lines[k], DockerScheme)
    ensures var lines := Lines(awkOut); var r := DockerContainers(awkOut);
      r.Some? ==> forall x :: x in r.value <==> exists k :: 0 <= k < |lines| && ContainerRef(lines[k]) == Some(x)
  {
    var lines := Lines(awkOut);
    var all := AllSome(ContainerRef, lines);
    if all.Some? {
      forall x | x in all.value ensures exists k :: 0 <= k < |lines| && ContainerRef(lines[k]) == Some(x) {
        var k :| 0 <= k < |all.value| && all.value[k] == x;
        assert ContainerRef(lines[k]) == Some(x);
      }
    }
  }

  /** The branch name on one `git ls-remote --heads` line: Python's `line.split('/heads/')[1]`. */
  function BranchName(line: string): (r: Option<string>)
    ensures r.None? <==> !Contains(line, HeadsMarker)
    ensures r.Some? ==> !Contains(r.value, HeadsMarker)
    ensures r.Some? ==> r.value == Before(After(line, HeadsMarker), HeadsMarker)
  {
    SecondField(line, HeadsMarker)
  }

  /** `identify_app_branches`: one branch name per output line. */
  function AppBranches(lsOut: string): (r: Option<seq<string>>)
    ensures var lines := Lines(lsOut);
      r.None? <==> exists k :: 0 <= k < |lines| && !Contains(lines[k], HeadsMarker)
    ensures var lines := Lines(lsOut);
      r.Some? ==> |r.value| == |lines| && forall k :: 0 <= k < |lines| ==>
        r.value[k] == Before(After(lines[k], HeadsMarker), HeadsMarker)
  {
    AllSome(BranchName, Lines(lsOut))
  }

  /** A head line `<sha>\trefs/heads/<name>` yields its name back. */
  lemma BranchNameOfHead(sha: string, name: string)
    requires '/' !in sha && !Contains(name, HeadsMarker)
    ensures BranchName(sha + "\trefs/heads/" + name) == Some(name)
  {
    var line := sha + "\trefs/heads/" + name;
    var i := |sha| + 5;
    assert line[i..i + 7] == HeadsMarker;
    assert HeadsMarker[0] == '/';
    forall j | 0 <= j < i ensures !OccursAt(line, HeadsMarker, j) {
      assert line[j..j + 7][0] == line[j] != '/';
    }
    FindIs(line, HeadsMarker, i);
    FindContains(line, HeadsMarker);
    assert line[i + 7..] == name;
  }

  /** One row of the app table: `app`, `owner`, `branch`, `containers`. */
  datatype AppRow = AppRow(app: string, owner: string, branch: string, container: string)

  /** The rows one branch contributes: one per container. */
  function BranchRows(owner: string, repo: string, branch: string, containers: seq<string>): (r: seq<AppRow>)
    ensures |r| == |containers|
    ensures forall k :: 0 <= k < |r| ==> r[k] == AppRow(repo, owner, branch, containers[k])
  {
    if |containers| == 0 then []
    else [AppRow(repo, owner, branch, containers[0])] + BranchRows(owner, repo, branch, containers[1..])
  }

  /**
   * The table `build_app_branches_df` accumulates over the listed branches, `awk` giving the
   * awk output of the descriptor on each branch's checkout; `None` when a checkout raises.
   */
  function AppTableOf(owner: string, repo: string, branches: seq<string>, awk: string -> string): (r: Option<seq<AppRow>>)
    ensures r.None? <==> exists k :: 0 <= k < |branches| && DockerContainers(awk(branches[k])).None?
    decreases |branches|
  {
    if |branches| == 0 then Some([])
    else
      var n := |branches| - 1;
      SomeFails(branches, b => DockerContainers(awk(b)));
      AddBranch(AppTableOf(owner, repo, branches[..n], awk), owner, repo, branches[n], DockerContainers(awk(branches[n])))
  }

  /** Some element fails exactly when one before the last does or the last one does. */
  lemma SomeFails(s: seq<string>, f: string -> Option<seq<string>>)
    requires |s| > 0
    ensures var n := |s| - 1;
      (exists k :: 0 <= k < |s| && f(s[k]).None?) <==>
      (exists k :: 0 <= k < n && f(s[..n][k]).None?) || f(s[n]).None?
  {
    var n := |s| - 1;
    assert forall k :: 0 <= k < n ==> s[..n][k] == s[k];
  }

  /** The table after one more branch: its rows appended, or failure if anything raised. */
  function AddBranch(table: Option<seq<AppRow>>, owner: string, repo: string, branch: string, containers: Option<seq<string>>): Option<seq<AppRow>> {
    if table.Some? && containers.Some? then Some(table.value + BranchRows(owner, repo, branch, containers.value))
    else None
  }

  /** Taking one more branch adds its rows, or makes the table fail with its checkout. */
  lemma AppTableStep(owner: string, repo: string, branches: seq<string>, i: nat, awk: string -> string)
    requires i < |branches|
    ensures AppTableOf(owner, repo, branches[..i + 1], awk) ==
      AddBranch(AppTableOf(owner, repo, branches[..i], awk), owner, repo, branches[i], DockerContainers(awk(branches[i])))
  {
    assert branches[..i + 1][..i] == branches[..i];
  }

  /** Every row names the app, its owner and one of the listed branches. */
  lemma {:induction false} AppTableRows(owner: string, repo: string, branches: seq<string>, awk: string -> string)
    ensures var r := AppTableOf(owner, repo, branches, awk);
      r.Some? ==> forall k :: 0 <= k < |r.value| ==>
        r.value[k].app == repo && r.value[k].owner == owner && r.value[k].branch in branches
    decreases |branches|
  {
    if |branches| > 0 {
      var n := |branches| - 1;
      var prefix := branches[..n];
      AppTableRows(owner, repo, prefix, awk);
      var prior := AppTableOf(owner, repo, prefix, awk);
      var cs := DockerContainers(awk(branches[n]));
      if prior.Some? && cs.Some? {
        var rows := prior.value + BranchRows(owner, repo, branches[n], cs.value);
        assert AppTableOf(owner, repo, branches, awk) == Some(rows);
        forall k | 0 <= k < |rows|
          ensures rows[k].app == repo && rows[k].owner == owner && rows[k].branch in branches
        {
          if k < |prior.value| {
            var j :| 0 <= j < n && prefix[j] == rows[k].branch;
            assert branches[j] == prefix[j];
          } else {
            assert rows[k] == AppRow(repo, owner, branches[n], cs.value[k - |prior.value|]);
          }
        }
      }
    }
  }

  /** `build_app_branches_df` as a table: the branches of `lsOut`, then their containers. */
  function AppTable(owner: string, repo: string, lsOut: string, awk: string -> string): (r: Option<seq<AppRow>>)
    ensures var bs := AppBranches(lsOut);
      r.None? <==> bs.None? || exists k :: 0 <= k < |bs.value| && DockerContainers(awk(bs.value[k])).None?
    ensures r.Some? ==> AppBranches(lsOut).Some? && forall k :: 0 <= k < |r.value| ==>
      r.value[k].app == repo && r.value[k].owner == owner && r.value[k].branch in AppBranches(lsOut).value
  {
    match AppBranches(lsOut)
    case None => None
    case Some(bs) =>
      AppTableRows(owner, repo, bs, awk);
      AppTableOf(owner, repo, bs, awk)
  }

  /** Distinct branches give a table without repeated rows. */
  lemma {:induction false} AppTableNoRepeats(owner: string, repo: string, branches: seq<string>, awk: string -> string)
    requires NoDups(branches)
    ensures AppTableOf(owner, repo, branches, awk).Some? ==>
      NoRowDups(AppTableOf(owner, repo, branches, awk).value)
    decreases |branches|
  {
    if |branches| > 0 {
      var n := |branches| - 1;
      var b := branches[n];
      var prefix := branches[..n];
      assert NoDups(prefix) && b !in prefix by {
        forall j | 0 <= j < n ensures prefix[j] != b {
          assert prefix[j] == branches[j];
        }
      }
      AppTableNoRepeats(owner, repo, prefix, awk);
      AppTableRows(owner, repo, prefix, awk);
      var prior := AppTableOf(owner, repo, prefix, awk);
      var cs := DockerContainers(awk(b));
      if prior.Some? && cs.Some? {
        var added := BranchRows(owner, repo, b, cs.value);
        BranchRowsNoDups(owner, repo, b, cs.value);
        NoRowDupsAppend(prior.value, added, prefix, b);
        assert AppTableOf(owner, repo, branches, awk) == Some(prior.value + added);
      }
    }
  }

  /** The rows of distinct containers are distinct. */
  lemma BranchRowsNoDups(owner: string, repo: string, branch: string, containers: seq<string>)
    requires NoDups(containers)
    ensures NoRowDups(BranchRows(owner, repo, branch, containers))
  {
    var rows := BranchRows(owner, repo, branch, containers);
    forall i, j | 0 <= i < j < |rows| ensures rows[i] != rows[j] {
      assert rows[i].container == containers[i];
    }
  }

  /** A table without repeats, extended by rows without repeats of a branch it lacks, has none. */
  lemma NoRowDupsAppend(rows: seq<AppRow>, added: seq<AppRow>, branches: seq<string>, branch: string)
    requires NoRowDups(rows) && NoRowDups(added)
    requires forall i :: 0 <= i < |rows| ==> rows[i].branch in branches
    requires branch !in branches
    requires forall j :: 0 <= j < |added| ==> added[j].branch == branch
    ensures NoRowDups(rows + added)
  {
    forall i, j | 0 <= i < j < |rows + added| ensures (rows + added)[i] != (rows + added)[j] {
      if i < |rows| && j >= |rows| {
        assert rows[i].branch in branches;
        assert added[j - |rows|].branch == branch;
      }
    }
  }

  /** No row occurs twice. */
  predicate NoRowDups(rows: seq<AppRow>) {
    forall i, j :: 0 <= i < j < |rows| ==> rows[i] != rows[j]
  }

  /** `build_app_branches_df`: one checkout per branch, its containers appended as rows. */
  method BuildAppBranches(owner: string, repo: string, lsOut: string, awk: string -> string)
    returns (table: Option<seq<AppRow>>)
    ensures table == AppTable(owner, repo, lsOut, awk)
  {
    var names := AppBranches(lsOut);
    if names.None? {
      return None;
    }
    var branches := names.value;
    var rows: seq<AppRow> := [];
    var i := 0;
    while i < |branches|
      invariant 0 <= i <= |branches|
      invariant AppTableOf(owner, repo, branches[..i], awk) == Some(rows)
    {
      AppTableStep(owner, repo, branches, i, awk);
      var containers := DockerContainers(awk(branches[i]));
      if containers.None? {
        AppTableFails(owner, repo, branches, awk, i + 1);
        return None;
      }
      rows := rows + BranchRows(owner, repo, branches[i], containers.value);
      i := i + 1;
    }
    assert branches[..i] == branches;
    return Some(rows);
  }

  /** Once a branch's checkout raises, the whole table does. */
  lemma AppTableFails(owner: string, repo: string, branches: seq<string>, awk: string -> string, n: nat)
    requires n <= |branches| && AppTableOf(owner, repo, branches[..n], awk).None?
    ensures AppTableOf(owner, repo, branches, awk).None?
  {
    var k :| 0 <= k < n && DockerContainers(awk(branches[..n][k])).None?;
    assert branches[..n][k] == branches[k];
  }
}
