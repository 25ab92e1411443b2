/**
 * main: read the current version, ask for the new version, the release
 * notes and a confirmation, show a preview, then update the project file and
 * run the pipeline. The console answers, the shell, the output listing and
 * the API key are parameters; the project file is the workspace.
 */
module Driver {
  import opened Wrappers
  import opened Text
  import opened Manifest
  import opened Artifacts
  import opened Pipeline

  /** Python's `str.isspace` for one character. */
  predicate IsSpace(c: char)
  {
    || ('\t' <= c <= '\r')
    || ('\U{1C}' <= c <= '\U{1F}')
    || c == ' ' || c == '\U{85}' || c == '\U{A0}' || c == '\U{1680}'
    || ('\U{2000}' <= c <= '\U{200A}')
    || c == '\U{2028}' || c == '\U{2029}' || c == '\U{202F}' || c == '\U{205F}' || c == '\U{3000}'
  }

  /** `s` without its leading whitespace. */
  function TrimStart(s: string): (r: string)
    ensures |r| <= |s| && r == s[|s| - |r|..]
    ensures forall i :: 0 <= i < |s| - |r| ==> IsSpace(s[i])
    ensures r != [] ==> !IsSpace(r[0])
  {
    if s != [] && IsSpace(s[0]) then TrimStart(s[1..]) else s
  }

  /** `s` without its trailing whitespace. */
  function TrimEnd(s: string): (r: string)
    ensures |r| <= |s| && r == s[..|r|]
    ensures forall i :: |r| <= i < |s| ==> IsSpace(s[i])
    ensures r != [] ==> !IsSpace(r[|r| - 1])
  {
    if s != [] && IsSpace(s[|s| - 1]) then TrimEnd(s[..|s| - 1]) else s
  }

  /** Python's `s.strip()`. */
  function Strip(s: string): string
  {
    TrimEnd(TrimStart(s))
  }

  /**
   * `s.strip()` is the slice `s[a..b]` with only whitespace outside it and,
   * unless it is empty, no whitespace at either end.
   */
  lemma StripSlice(s: string) returns (a: nat, b: nat)
    ensures a <= b <= |s| && Strip(s) == s[a..b]
    ensures forall i :: 0 <= i < a ==> IsSpace(s[i])
    ensures forall i :: b <= i < |s| ==> IsSpace(s[i])
    ensures a < b ==> !IsSpace(s[a]) && !IsSpace(s[b - 1])
  {
    var t := TrimStart(s);
    a := |s| - |t|;
    b := a + |TrimEnd(t)|;
    forall i | b <= i < |s| ensures IsSpace(s[i]) {
      assert s[i] == t[i - a];
    }
    assert s[a..b] == t[..b - a];
  }

  /** `not s.strip()`. */
  predicate IsBlank(s: string)
  {
    Strip(s) == []
  }

  /** A string is blank exactly when every character in it is whitespace. */
  lemma BlankIffAllSpace(s: string)
    ensures IsBlank(s) <==> forall i :: 0 <= i < |s| ==> IsSpace(s[i])
  {
    var a, b := StripSlice(s);
    if !IsBlank(s) {
      assert !IsSpace(s[a]);
    }
  }

  /** `s.lower()` on ASCII letters; other characters are kept. */
  function Lower(s: string): (r: string)
    ensures |r| == |s|
    ensures forall i :: 0 <= i < |s| ==> r[i] == if 'A' <= s[i] <= 'Z' then s[i] - 'A' + 'a' else s[i]
  {
    if s == [] then []
    else [if 'A' <= s[0] <= 'Z' then s[0] - 'A' + 'a' else s[0]] + Lower(s[1..])
  }

  /** `confirm.lower() == 'y'`. */
  predicate Confirmed(answer: string)
  {
    Lower(answer) == "y"
  }

  /** Only `y` and `Y` confirm; anything else, the empty answer included, cancels. */
  lemma ConfirmedIff(answer: string)
    ensures Confirmed(answer) <==> answer == "y" || answer == "Y"
  {
    if Confirmed(answer) {
      assert Lower(answer)[0] == 'y';
    }
  }

  const FallbackPackageId: string := "Himmelt.NFun"

  /** The package id shown in the preview: the one found, or the fallback when the lookup gave the sentinel. */
  function PreviewPackageId(id: string): (r: string)
    ensures r != Unknown
    ensures r == id <==> id != Unknown
    ensures id == Unknown ==> r == "Himmelt.NFun"
  {
    if id != Unknown then id else FallbackPackageId
  }

  /** What the preview shows about the files to be published. */
  datatype Preview = Preview(packageId: string, packageFile: string, symbolFile: string)

  /** The preview for a looked-up package id and the entered version: `{id}.{version}.nupkg` and `.snupkg`. */
  function PreviewFor(id: string, version: string): Preview
  {
    var pid := PreviewPackageId(id);
    Preview(pid, pid + "." + version + PackageSuffix, pid + "." + version + SymbolSuffix)
  }

  lemma ContainsPrefix(a: string, b: string, p: string)
    requires Contains(a, p)
    ensures Contains(a + b, p)
  {
    var i :| 0 <= i <= |a| && StartsAt(a, p, i);
    StartsAtLeft(a, b, p, i);
  }

  /** The previewed main file name is a package archive and the symbol file name a symbol archive. */
  lemma PreviewMatchesFilters(id: string, version: string)
    ensures IsPackageArchive(PreviewFor(id, version).packageFile)
    ensures EndsWith(PreviewFor(id, version).symbolFile, SymbolSuffix)
  {
    var p := PreviewFor(id, version);
    var stem := p.packageId + "." + version;
    assert p.packageFile == stem + PackageSuffix;
    assert p.symbolFile == stem + SymbolSuffix;
    SymbolExclusionRedundant(p.packageFile);
  }

  /** With the fallback id, the previewed names are `Himmelt.NFun.{version}.nupkg` and `.snupkg`. */
  lemma FallbackPreviewNames(version: string)
    ensures PreviewFor(Unknown, version).packageFile == "Himmelt.NFun." + version + ".nupkg"
    ensures PreviewFor(Unknown, version).symbolFile == "Himmelt.NFun." + version + ".snupkg"
  {
    assert PreviewPackageId(Unknown) == "Himmelt.NFun";
  }

  /** With the fallback id, both previewed names also pass the NFun filters of step 6. */
  lemma FallbackPreviewMentionsNFun(version: string)
    ensures MentionsNFun(PreviewFor(Unknown, version).packageFile)
    ensures IsNFunSymbolArchive(PreviewFor(Unknown, version).symbolFile)
  {
    var p := PreviewFor(Unknown, version);
    assert StartsAt(FallbackPackageId, ProductMark, 8);
    ContainsPrefix(FallbackPackageId, "." + version + PackageSuffix, ProductMark);
    ContainsPrefix(FallbackPackageId, "." + version + SymbolSuffix, ProductMark);
    assert p.packageFile == FallbackPackageId + ("." + version + PackageSuffix);
    assert p.symbolFile == FallbackPackageId + ("." + version + SymbolSuffix);
    PreviewMatchesFilters(Unknown, version);
  }

  /** `sys.exit(code)`: the process status is the code modulo 256. */
  function ExitStatus(code: int): (r: int)
    ensures 0 <= r < 256 && (r - code) % 256 == 0
    ensures 0 <= code < 256 ==> r == code
  {
    code % 256
  }

  /**
   * The process status after a confirmed release: the push's exit code
   * modulo 256 when the push ran, and 1 otherwise.
   */
  lemma PipelineStatus(run: Command -> int, project: string, output: string,
                       listing: Option<seq<string>>, apiKey: string)
    ensures var (result, issued) := Outcome(run, project, output, listing, apiKey);
      && |issued| >= 1
      && ExitStatus(result) == if issued[|issued| - 1].Push? then run(issued[|issued| - 1]) % 256 else 1
  {
    PushResultPropagated(run, project, output, listing, apiKey);
  }

  /** The version was read and both answers are non-blank: the preview is shown. */
  predicate Gated(manifest: Option<string>, versionInput: string, notesInput: string)
  {
    GetCurrentVersion(manifest).1 && !IsBlank(versionInput) && !IsBlank(notesInput)
  }

  /**
   * main. It stops with 1 when the current version cannot be read or an
   * answer is blank, with 0 when the release is not confirmed; otherwise it
   * writes the new version and notes into the project file (unstripped) and
   * returns the pipeline's result.
   */
  method Release(ws: Workspace, versionInput: string, notesInput: string, confirmInput: string,
                 run: Command -> int, project: string, output: string,
                 listing: Option<seq<string>>, apiKey: string)
    returns (exit: int, issued: seq<Command>, preview: Option<Preview>)
    requires Gated(ws.manifest, versionInput, notesInput) && Confirmed(confirmInput) ==>
      '\\' !in versionInput && '\\' !in notesInput
    modifies ws
    ensures !Gated(old(ws.manifest), versionInput, notesInput) ==>
      exit == 1 && issued == [] && preview.None? && ws.manifest == old(ws.manifest)
    ensures Gated(old(ws.manifest), versionInput, notesInput) ==>
      preview == Some(PreviewFor(ValueOrUnknown(Lookup(old(ws.manifest), PackageIdTag)), versionInput))
    ensures Gated(old(ws.manifest), versionInput, notesInput) && !Confirmed(confirmInput) ==>
      exit == 0 && issued == [] && ws.manifest == old(ws.manifest)
    ensures Gated(old(ws.manifest), versionInput, notesInput) && Confirmed(confirmInput) ==>
      && ws.manifest == Some(UpdatedManifest(old(ws.manifest).value, versionInput, notesInput))
      && (exit, issued) == Outcome(run, project, output, listing, apiKey)
  {
    var current := GetCurrentVersion(ws.manifest);
    if !current.1 {
      return 1, [], None;
    }
    if IsBlank(versionInput) {
      return 1, [], None;
    }
    if IsBlank(notesInput) {
      return 1, [], None;
    }
    var info := GetPackageInfo(ws.manifest);
    preview := Some(PreviewFor(info.id, versionInput));
    if !Confirmed(confirmInput) {
      return 0, [], preview;
    }
    var ok := ws.UpdateCsprojFile(versionInput, notesInput);
    assert ok;
    var result;
    result, issued := BuildTestPackAndPublish(run, project, output, listing, apiKey);
    if result == 0 {
      return 0, issued, preview;
    }
    return result, issued, preview;
  }
}
