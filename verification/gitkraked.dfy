/** The decision skeleton of `main`: argument checks, extraction, metadata
    checks, patching, then backup-rename, repack and cleanup. The archive
    codec, JSON parsing and the filesystem are not modelled: the tree the
    container holds, what the workspace directory and the `.old` backup hold
    before the run, and the parsed documents are inputs, and the result
    records what each of those places holds afterwards. */
module Gitkraked {
  import opened Wrappers
  import opened NodePath
  import opened EarlyExit
  import opened JsString
  import opened Patching

  /** The part of `package.json` that `main` reads. A missing `version` is
      `None`, JavaScript's `undefined`. */
  datatype PackageData = PackageData(version: Option<string>)

  /** The patch data: the patch file's declared `version` and its ordered patches. */
  datatype PatchData = PatchData(version: Option<string>, patches: seq<Patch>)

  /** How a run ends. `BadArg(i)` names the index into `argv` of the argument
      with the wrong extension; `Success(n)` reports the number of patches. */
  datatype Outcome =
    | Usage
    | BadArg(arg: nat)
    | MissingPackage
    | Malformed
    | VersionMismatch
    | PatchFailed
    | Success(applied: nat)

  /** Everything a run depends on. `argv` is the whole argument vector,
      runtime and script included; `archive` is the tree the container at
      `argv[2]` holds; `workspace` is what the sibling `extracted` directory
      holds before the run (`None` when it does not exist); `backup` is what
      `argv[2] + ".old"` holds before the run; `packageData` is the parse of
      `Extracted(inv)["package.json"]` and `patchData` that of the file at
      `argv[3]`, each `None` where parsing gave `null`. */
  datatype Invocation = Invocation(
    argv: seq<string>,
    archive: Store,
    workspace: Option<Store>,
    backup: Option<Store>,
    packageData: Option<PackageData>,
    patchData: Option<PatchData>)

  /** The state a run leaves: its outcome, whether it reached the rename, the
      tree at the container's path, the `extracted` directory (`None` when
      absent) and what the `.old` backup holds. */
  datatype Final = Final(
    outcome: Outcome,
    renamed: bool,
    archive: Store,
    workspace: Option<Store>,
    backup: Option<Store>)

  /** Name of the metadata file at the archive root. */
  const PackageJson: string := "package.json"

  /** What the workspace holds before extraction: its earlier contents, or
      nothing once it has been created. */
  function Prior(inv: Invocation): Store
  {
    if inv.workspace.Some? then inv.workspace.value else map[]
  }

  /** The workspace after extraction: the container's files are written over
      whatever an earlier run left there, and every other leftover file
      stays. */
  function Extracted(inv: Invocation): (r: Store)
    ensures r.Keys == Prior(inv).Keys + inv.archive.Keys
    ensures forall f :: f in inv.archive ==> r[f] == inv.archive[f]
    ensures forall f :: f in Prior(inv) && f !in inv.archive ==> r[f] == Prior(inv)[f]
  {
    Prior(inv) + inv.archive
  }

  /** A run that stops before extraction touches nothing. */
  function StopEarly(inv: Invocation, outcome: Outcome): Final
  {
    Final(outcome, false, inv.archive, inv.workspace, inv.backup)
  }

  /** A run that stops after extraction leaves the workspace behind. */
  function StopExtracted(inv: Invocation, outcome: Outcome, workspace: Store): Final
  {
    Final(outcome, false, inv.archive, Some(workspace), inv.backup)
  }

  /** Both command-line arguments have the right count and extensions. */
  predicate ArgsOk(argv: seq<string>)
  {
    |argv| == 4 && IsFileType(argv[2], ".asar") && IsFileType(argv[3], ".json")
  }

  /** The extracted workspace holds `package.json`, both documents parse, and
      their versions agree. */
  predicate MetadataOk(inv: Invocation)
  {
    && PackageJson in Extracted(inv)
    && inv.packageData.Some? && inv.patchData.Some?
    && inv.packageData.value.version == inv.patchData.value.version
  }

  /** `main()`, with every early return modelled. The checks run in the
      source's order, each failure outcome arising exactly when every earlier
      check passed and its own failed; only a run that reaches the end renames
      the original container to the `.old` backup (replacing an existing
      backup, as POSIX rename does), packs the patched workspace at the
      original path and removes the workspace. */
  function Main(inv: Invocation): (r: Final)
    ensures r.outcome == Usage <==> |inv.argv| != 4
    ensures r.outcome == BadArg(2) <==> |inv.argv| == 4 && !IsFileType(inv.argv[2], ".asar")
    ensures r.outcome == BadArg(3) <==>
      |inv.argv| == 4 && IsFileType(inv.argv[2], ".asar") && !IsFileType(inv.argv[3], ".json")
    ensures r.outcome == MissingPackage <==> ArgsOk(inv.argv) && PackageJson !in Extracted(inv)
    ensures r.outcome == Malformed <==>
      ArgsOk(inv.argv) && PackageJson in Extracted(inv) && (inv.packageData.None? || inv.patchData.None?)
    ensures r.outcome == VersionMismatch <==>
      && ArgsOk(inv.argv) && PackageJson in Extracted(inv)
      && inv.packageData.Some? && inv.patchData.Some?
      && inv.packageData.value.version != inv.patchData.value.version
    ensures r.outcome == PatchFailed <==>
      ArgsOk(inv.argv) && MetadataOk(inv) && !ApplyPatches(Extracted(inv), inv.patchData.value.patches).ok
    ensures r.outcome.Success? <==>
      ArgsOk(inv.argv) && MetadataOk(inv) && ApplyPatches(Extracted(inv), inv.patchData.value.patches).ok
    ensures r.renamed <==> r.outcome.Success?
    ensures !r.renamed ==> r.archive == inv.archive && r.backup == inv.backup
    ensures r.outcome == Usage || r.outcome.BadArg? ==> r.workspace == inv.workspace
    ensures r.outcome in {MissingPackage, Malformed, VersionMismatch} ==> r.workspace == Some(Extracted(inv))
    ensures r.outcome == PatchFailed ==>
      r.workspace == Some(ApplyPatches(Extracted(inv), inv.patchData.value.patches).state)
    ensures r.outcome.Success? ==>
      && r.outcome.applied == |inv.patchData.value.patches|
      && r.archive == ApplyPatches(Extracted(inv), inv.patchData.value.patches).state
      && r.backup == Some(inv.archive)
      && r.workspace == None
  {
    if |inv.argv| != 4 then StopEarly(inv, Usage)
    else if !IsFileType(inv.argv[2], ".asar") then StopEarly(inv, BadArg(2))
    else if !IsFileType(inv.argv[3], ".json") then StopEarly(inv, BadArg(3))
    else
      var extracted := Extracted(inv);
      if PackageJson !in extracted then StopExtracted(inv, MissingPackage, extracted)
      else if inv.packageData.None? || inv.patchData.None? then StopExtracted(inv, Malformed, extracted)
      else if inv.packageData.value.version != inv.patchData.value.version then
        StopExtracted(inv, VersionMismatch, extracted)
      else
        var patches := inv.patchData.value.patches;
        var run := ApplyPatches(extracted, patches);
        if !run.ok then StopExtracted(inv, PatchFailed, run.state)
        else Final(Success(|patches|), true, run.state, None, Some(inv.archive))
  }

  /** The run succeeds exactly when the arguments and metadata are in order
      and every patch applies, in turn, to what the patches before it
      produced; the container then holds the tree those patches build from
      the extracted workspace, and the backup holds the original. */
  lemma MainSucceedsIff(inv: Invocation)
    ensures Main(inv).outcome.Success? <==>
      && ArgsOk(inv.argv)
      && MetadataOk(inv)
      && forall k :: 0 <= k < |inv.patchData.value.patches| ==>
           StepApplies(Extracted(inv), inv.patchData.value.patches, k)
    ensures Main(inv).outcome.Success? ==>
      && Prefix(ApplyPatch, Extracted(inv), inv.patchData.value.patches,
                |inv.patchData.value.patches|) == Some(Main(inv).archive)
      && Main(inv).backup == Some(inv.archive)
  {
    if ArgsOk(inv.argv) && MetadataOk(inv) {
      ApplyPatchesOkIff(Extracted(inv), inv.patchData.value.patches);
    }
  }

  /** When some patch cannot apply, the container and its backup are as they
      were, and the workspace holds what the patches before the failing one
      produced: the same files, and every file none of them names as it was
      extracted. */
  lemma MainPatchFailureLeavesPrefix(inv: Invocation, k: nat)
    requires ArgsOk(inv.argv) && MetadataOk(inv)
    requires k < |inv.patchData.value.patches|
    requires Prefix(ApplyPatch, Extracted(inv), inv.patchData.value.patches, k).Some?
    requires !Applicable(Prefix(ApplyPatch, Extracted(inv), inv.patchData.value.patches, k).value,
                         inv.patchData.value.patches[k])
    ensures Main(inv).outcome == PatchFailed
    ensures Main(inv).archive == inv.archive && Main(inv).backup == inv.backup
    ensures Main(inv).workspace == Prefix(ApplyPatch, Extracted(inv), inv.patchData.value.patches, k)
    ensures Main(inv).workspace.value.Keys == Extracted(inv).Keys
    ensures forall f :: f in Extracted(inv) && !NamedIn(inv.patchData.value.patches[..k], f) ==>
      Main(inv).workspace.value[f] == Extracted(inv)[f]
  {
    ApplyPatchesFailsAt(Extracted(inv), inv.patchData.value.patches, k);
  }

  /** A `package.json` left in the workspace by an earlier run satisfies the
      metadata check even when the container has none. */
  lemma LeftoverPackageJsonPasses(inv: Invocation)
    requires ArgsOk(inv.argv)
    requires inv.workspace.Some? && PackageJson in inv.workspace.value
    ensures Main(inv).outcome != MissingPackage
  {
    assert PackageJson in Prior(inv);
  }

  /** A leftover file that the container does not hold and that no patch
      names is packed, unchanged, into the new container. */
  lemma LeftoverFileRepacked(inv: Invocation, f: string)
    requires Main(inv).outcome.Success?
    requires inv.workspace.Some? && f in inv.workspace.value && f !in inv.archive
    requires !NamedIn(inv.patchData.value.patches, f)
    ensures f in Main(inv).archive && Main(inv).archive[f] == inv.workspace.value[f]
  {
    ApplyPatchesFrame(Extracted(inv), inv.patchData.value.patches);
  }

  /** An archive holding its metadata and one script. */
  const ExampleArchive: Store := map["package.json" := "{\"version\":\"1.0\"}", "a.js" := "XaX"]

  /** `gitkraked App.asar patch.json` with no earlier workspace or backup,
      matching versions and one patch. */
  const ExampleInvocation: Invocation :=
    Invocation(["node", "gitkraked.js", "App.asar", "patch.json"], ExampleArchive, None, None,
               Some(PackageData(Some("1.0"))),
               Some(PatchData(Some("1.0"), [Patch("a.js", "X", "Y")])))

  /** The archive check ignores letter case. */
  lemma ExampleAsarArg()
    ensures IsFileType("App.asar", ".asar")
  {
    var p := "App.asar";
    assert TrimTrailingSlashes(p) == p;
    assert p[|p| - 5..] == ".asar";
    PathEndMatchesExt(p, ".asar");
  }

  /** The patch file check accepts a plain `.json` name. */
  lemma ExampleJsonArg()
    ensures IsFileType("patch.json", ".json")
  {
    var p := "patch.json";
    assert TrimTrailingSlashes(p) == p;
    assert p[|p| - 5..] == ".json";
    PathEndMatchesExt(p, ".json");
  }

  /** The example's patch rewrites the first `X` of `a.js` only. */
  lemma ExamplePatchApplies()
    ensures ApplyPatches(ExampleArchive, [Patch("a.js", "X", "Y")])
            == Run(true, ExampleArchive["a.js" := "YaX"])
  {
    var ps := [Patch("a.js", "X", "Y")];
    var next := ExampleArchive["a.js" := "YaX"];
    ReplaceFirstOnlyExample();
    assert OccursAt("XaX", "X", 0) by {
      assert "XaX"[0..1] == "X";
    }
    assert ApplyPatch(ExampleArchive, ps[0]) == Some(next);
    assert RunSteps(ApplyPatch, ExampleArchive, ps) == RunSteps(ApplyPatch, next, ps[1..]);
    assert ps[1..] == [];
  }

  /** A whole run: the checks pass, the patch applies, the original container
      becomes the backup, the patched tree is packed in its place and the
      workspace is removed. */
  lemma MainExample()
    ensures Main(ExampleInvocation)
            == Final(Success(1), true, ExampleArchive["a.js" := "YaX"], None, Some(ExampleArchive))
  {
    ExampleAsarArg();
    ExampleJsonArg();
    ExampleExtracted();
    ExamplePatchApplies();
  }

  /** With no earlier workspace, extraction yields exactly the container's
      tree. */
  lemma ExampleExtracted()
    ensures Extracted(ExampleInvocation) == ExampleArchive
  {
    assert Prior(ExampleInvocation) == map[];
  }
}
