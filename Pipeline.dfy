/**
 * build_test_pack_and_publish: clean, restore, build and pack the NFun
 * project, pick the package to publish, and push it to nuget.org. Each
 * command's exit code comes from `run`, which stands for the shell (a command
 * that cannot be started counts as exit code 1); the listing of the output
 * directory after packing and the NUGET_API_KEY value are parameters.
 */
module Pipeline {
  import opened Wrappers
  import opened Text
  import opened Artifacts

  const NuGetSource: string := "https://api.nuget.org/v3/index.json"

  /** The commands the pipeline runs; `Push` names the directory and the file pushed from it. */
  datatype Command =
    | Clean(project: string)
    | Restore(project: string)
    | Build(project: string)
    | Pack(project: string, output: string)
    | Push(directory: string, file: string, apiKey: string, source: string)

  /** The shell text of a command; paths are joined with `/`. */
  function CommandLine(c: Command): string
  {
    match c
    case Clean(p) => "dotnet clean " + p + " --configuration Release"
    case Restore(p) => "dotnet restore " + p
    case Build(p) => "dotnet build " + p + " --configuration Release"
    case Pack(p, o) => "dotnet pack " + p + " --configuration Release --output " + o + " --no-build"
    case Push(d, f, k, s) => "dotnet nuget push \"" + d + "/" + f + "\" --api-key " + k + " --source " + s
  }

  /**
   * The stage lines: clean, restore and build name the project; clean, build
   * and pack use the Release configuration; pack writes to the output
   * directory without building again.
   */
  lemma StageLines(project: string, output: string)
    ensures StartsAt(CommandLine(Clean(project)), "dotnet clean " + project, 0)
    ensures EndsWith(CommandLine(Clean(project)), " --configuration Release")
    ensures StartsAt(CommandLine(Restore(project)), "dotnet restore ", 0)
    ensures EndsWith(CommandLine(Restore(project)), project)
    ensures StartsAt(CommandLine(Build(project)), "dotnet build " + project, 0)
    ensures EndsWith(CommandLine(Build(project)), " --configuration Release")
    ensures StartsAt(CommandLine(Pack(project, output)), "dotnet pack " + project + " --configuration Release", 0)
    ensures EndsWith(CommandLine(Pack(project, output)), " --output " + output + " --no-build")
  {
    ConcatEnds("dotnet clean " + project, " --configuration Release");
    ConcatEnds("dotnet restore ", project);
    ConcatEnds("dotnet build " + project, " --configuration Release");
    var head := "dotnet pack " + project + " --configuration Release";
    assert CommandLine(Pack(project, output)) == head + (" --output " + output + " --no-build");
    ConcatEnds(head, " --output " + output + " --no-build");
  }

  /**
   * The push line: the package path (directory and file joined) in double
   * quotes, then the API key after `--api-key`, and nuget.org after
   * `--source` at the end.
   */
  lemma PushLine(directory: string, file: string, apiKey: string)
    ensures var line := CommandLine(Push(directory, file, apiKey, NuGetSource));
      var head, path := "dotnet nuget push \"", directory + "/" + file;
      && StartsAt(line, head, 0)
      && line[|head|..|head| + |path|] == path
      && StartsAt(line, "\" --api-key " + apiKey, |head| + |path|)
      && EndsWith(line, " --source " + NuGetSource)
  {
    var head, path := "dotnet nuget push \"", directory + "/" + file;
    var key, source := "\" --api-key " + apiKey, " --source " + NuGetSource;
    assert CommandLine(Push(directory, file, apiKey, NuGetSource)) == head + path + key + source;
    ConcatFour(head, path, key, source);
  }

  /** Steps 1, 2, 4 and 5 (step 3, the tests, is skipped). */
  function Stages(project: string, output: string): seq<Command>
  {
    [Clean(project), Restore(project), Build(project), Pack(project, output)]
  }

  /** The index of the first command that fails, or `|cmds|` when none does. */
  function FirstFailing(cmds: seq<Command>, run: Command -> int): (r: nat)
    ensures r <= |cmds|
    ensures forall j :: 0 <= j < r ==> run(cmds[j]) == 0
    ensures r < |cmds| ==> run(cmds[r]) != 0
  {
    if cmds == [] then 0
    else if run(cmds[0]) != 0 then 0
    else 1 + FirstFailing(cmds[1..], run)
  }

  /**
   * Reference for the whole pipeline: the exit code and the commands issued.
   * A failing stage stops everything with 1; so do a missing or unusable
   * output directory and an empty API key; otherwise the push's own exit
   * code is the result.
   */
  function Outcome(run: Command -> int, project: string, output: string,
                   listing: Option<seq<string>>, apiKey: string): (int, seq<Command>)
  {
    var stages := Stages(project, output);
    var f := FirstFailing(stages, run);
    if f < |stages| then (1, stages[..f + 1])
    else match SelectArtifacts(listing)
      case Selected(main, _) =>
        if apiKey == [] then (1, stages)
        else
          var push := Push(output, main, apiKey, NuGetSource);
          (run(push), stages + [push])
      case _ => (1, stages)
  }

  /**
   * The pipeline, step by step, stopping at the first failure. The symbol
   * package that step 6 may find is reported only, never pushed.
   */
  method BuildTestPackAndPublish(run: Command -> int, project: string, output: string,
                                 listing: Option<seq<string>>, apiKey: string)
    returns (result: int, issued: seq<Command>)
    ensures (result, issued) == Outcome(run, project, output, listing, apiKey)
  {
    ghost var stages := Stages(project, output);
    ghost var f := FirstFailing(stages, run);
    assert stages[0] == Clean(project) && stages[1] == Restore(project);
    assert stages[2] == Build(project) && stages[3] == Pack(project, output);
    issued := [Clean(project)];
    if run(Clean(project)) != 0 {
      assert f == 0 && issued == stages[..1];
      return 1, issued;
    }
    issued := issued + [Restore(project)];
    if run(Restore(project)) != 0 {
      assert f == 1 && issued == stages[..2];
      return 1, issued;
    }
    issued := issued + [Build(project)];
    if run(Build(project)) != 0 {
      assert f == 2 && issued == stages[..3];
      return 1, issued;
    }
    issued := issued + [Pack(project, output)];
    if run(Pack(project, output)) != 0 {
      assert f == 3 && issued == stages[..4];
      return 1, issued;
    }
    assert f == 4 && issued == stages;
    var selection := SelectArtifacts(listing);
    if !selection.Selected? {
      return 1, issued;
    }
    if apiKey == [] {
      return 1, issued;
    }
    var push := Push(output, selection.main, apiKey, NuGetSource);
    issued := issued + [push];
    result := run(push);
    if result != 0 {
      return result, issued;
    }
    return result, issued;
  }

  /** A failing stage ends the pipeline with 1, right after that stage, and nothing is pushed. */
  lemma StageFailureStops(run: Command -> int, project: string, output: string,
                          listing: Option<seq<string>>, apiKey: string, k: nat)
    requires k < 4 && run(Stages(project, output)[k]) != 0
    requires forall j :: 0 <= j < k ==> run(Stages(project, output)[j]) == 0
    ensures Outcome(run, project, output, listing, apiKey) == (1, Stages(project, output)[..k + 1])
    ensures forall c :: c in Outcome(run, project, output, listing, apiKey).1 ==> !c.Push?
  {
    var stages := Stages(project, output);
    var f := FirstFailing(stages, run);
    assert f == k;
    forall c | c in stages[..k + 1] ensures !c.Push? {
      var j :| 0 <= j < k + 1 && stages[..k + 1][j] == c;
      assert c == stages[j];
    }
  }

  /** With every stage passing, a missing directory or no usable package ends the pipeline with 1 and no push. */
  lemma MissingPackageStops(run: Command -> int, project: string, output: string,
                            listing: Option<seq<string>>, apiKey: string)
    requires forall j :: 0 <= j < 4 ==> run(Stages(project, output)[j]) == 0
    requires !SelectArtifacts(listing).Selected?
    ensures Outcome(run, project, output, listing, apiKey) == (1, Stages(project, output))
  {
    assert FirstFailing(Stages(project, output), run) == 4;
  }

  /** Without an API key nothing is pushed and the result is 1. */
  lemma NoKeyNoPush(run: Command -> int, project: string, output: string,
                    listing: Option<seq<string>>)
    ensures Outcome(run, project, output, listing, []).0 == 1
    ensures forall c :: c in Outcome(run, project, output, listing, []).1 ==> !c.Push?
  {
    var stages := Stages(project, output);
    var f := FirstFailing(stages, run);
    if f < |stages| {
      StageFailureStops(run, project, output, listing, [], f);
    } else {
      forall c | c in stages ensures !c.Push? { }
    }
  }

  /**
   * Every command issued but the last returned 0; the pushed package, if
   * any, is the selected one, pushed last with the given key to nuget.org,
   * and its exit code is the pipeline's result.
   */
  lemma PushResultPropagated(run: Command -> int, project: string, output: string,
                             listing: Option<seq<string>>, apiKey: string)
    ensures var (result, issued) := Outcome(run, project, output, listing, apiKey);
      && |issued| >= 1
      && (forall j :: 0 <= j < |issued| - 1 ==> run(issued[j]) == 0)
      && (forall j :: 0 <= j < |issued| - 1 ==> !issued[j].Push?)
      && (issued[|issued| - 1].Push? ==>
            && issued[|issued| - 1] == Push(output, SelectArtifacts(listing).main, apiKey, NuGetSource)
            && SelectArtifacts(listing).Selected? && apiKey != []
            && result == run(issued[|issued| - 1]))
  {
    var stages := Stages(project, output);
    var f := FirstFailing(stages, run);
    if f < |stages| {
      StageFailureStops(run, project, output, listing, apiKey, f);
    } else {
      StagesPassed(run, project, output, listing, apiKey);
    }
  }

  /** Once all four stages pass, the outcome is decided by the selection and the key alone. */
  lemma StagesPassed(run: Command -> int, project: string, output: string,
                     listing: Option<seq<string>>, apiKey: string)
    requires FirstFailing(Stages(project, output), run) == 4
    ensures forall j :: 0 <= j < 4 ==> run(Stages(project, output)[j]) == 0 && !Stages(project, output)[j].Push?
    ensures SelectArtifacts(listing).Selected? && apiKey != [] ==>
      var push := Push(output, SelectArtifacts(listing).main, apiKey, NuGetSource);
      Outcome(run, project, output, listing, apiKey) == (run(push), Stages(project, output) + [push])
    ensures !(SelectArtifacts(listing).Selected? && apiKey != []) ==>
      Outcome(run, project, output, listing, apiKey) == (1, Stages(project, output))
  {
  }

  /** The result is 0 only when all four stages and the push returned 0. */
  lemma SuccessMeansPublished(run: Command -> int, project: string, output: string,
                              listing: Option<seq<string>>, apiKey: string)
    requires Outcome(run, project, output, listing, apiKey).0 == 0
    ensures SelectArtifacts(listing).Selected? && apiKey != []
    ensures forall j :: 0 <= j < 4 ==> run(Stages(project, output)[j]) == 0
    ensures Outcome(run, project, output, listing, apiKey).1 ==
      Stages(project, output) + [Push(output, SelectArtifacts(listing).main, apiKey, NuGetSource)]
    ensures run(Push(output, SelectArtifacts(listing).main, apiKey, NuGetSource)) == 0
  {
  }
}
