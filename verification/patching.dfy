/** `applyPatches`: an ordered list of literal find/replace patches applied to
    the files of the extracted archive. The directory is a map from relative
    path to text; each patch rewrites its file in place before the next one
    runs, and the first patch that cannot apply stops the run without undoing
    the earlier ones. */
module Patching {
  import opened Wrappers
  import opened JsString
  import opened EarlyExit

  /** One entry of the patch file's `patches` array. */
  datatype Patch = Patch(file: string, find: string, replace: string)

  /** The extracted archive: relative path to file content. */
  type Store = map<string, string>

  /** Patch `p` can run on `store`: its file exists and contains its `find` text. */
  ghost predicate Applicable(store: Store, p: Patch)
  {
    p.file in store && Contains(store[p.file], p.find)
  }

  /** Some patch of `patches` names `file`. */
  ghost predicate NamedIn(patches: seq<Patch>, file: string)
  {
    exists j :: 0 <= j < |patches| && patches[j].file == file
  }

  /** One iteration of the loop: fails when the file is missing or does not
      contain `find`; otherwise rewrites the first occurrence in that file. */
  function ApplyPatch(store: Store, p: Patch): (r: Option<Store>)
    ensures r.Some? <==> Applicable(store, p)
    ensures r.Some? ==> r.value.Keys == store.Keys
    ensures r.Some? ==> forall f :: f in store && f != p.file ==> r.value[f] == store[f]
    ensures r.Some? ==> forall i :: IsFirstOccurrence(store[p.file], p.find, i) ==>
      r.value[p.file] == store[p.file][..i]
                         + GetSubstitution(p.find, store[p.file], i, p.replace)
                         + store[p.file][i + |p.find|..]
  {
    if p.file !in store then None
    else if !Includes(store[p.file], p.find) then None
    else Some(store[p.file := Replace(store[p.file], p.find, p.replace)])
  }

  /** `applyPatches(basePath, patches)`: patches run front to back; the first
      one that cannot apply returns `false` with the directory as it stands. */
  function ApplyPatches(store: Store, patches: seq<Patch>): Run<Store>
  {
    RunSteps(ApplyPatch, store, patches)
  }

  /** No file appears or disappears, a file no patch names keeps its content,
      and an empty patch list succeeds without touching anything. */
  lemma {:induction false} ApplyPatchesFrame(store: Store, patches: seq<Patch>)
    ensures ApplyPatches(store, patches).state.Keys == store.Keys
    ensures forall f :: f in store && !NamedIn(patches, f) ==>
      ApplyPatches(store, patches).state[f] == store[f]
    ensures patches == [] ==> ApplyPatches(store, patches) == Run(true, store)
    decreases |patches|
  {
    if |patches| > 0 {
      var rest := patches[1..];
      match ApplyPatch(store, patches[0])
      case None =>
      case Some(next) =>
        ApplyPatchesFrame(next, rest);
        forall f | NamedIn(rest, f) ensures NamedIn(patches, f) {
          var j :| 0 <= j < |rest| && rest[j].file == f;
          assert patches[j + 1].file == f;
        }
    }
  }

  /** Patch `k` of `patches` applies to what the patches before it produced. */
  ghost predicate StepApplies(store: Store, patches: seq<Patch>, k: nat)
    requires k < |patches|
  {
    Prefix(ApplyPatch, store, patches, k).Some?
    && Applicable(Prefix(ApplyPatch, store, patches, k).value, patches[k])
  }

  /** `applyPatches` returns `true` exactly when every patch's file exists and
      contains its `find` at the moment that patch runs; the directory it then
      leaves is that of the patches applied one after another. */
  lemma ApplyPatchesOkIff(store: Store, patches: seq<Patch>)
    ensures ApplyPatches(store, patches).ok <==>
      forall k :: 0 <= k < |patches| ==> StepApplies(store, patches, k)
    ensures ApplyPatches(store, patches).ok ==>
      Prefix(ApplyPatch, store, patches, |patches|) == Some(ApplyPatches(store, patches).state)
  {
    RunMatchesPrefix(ApplyPatch, store, patches);
    PrefixSomeIff(ApplyPatch, store, patches, |patches|);
    forall k | 0 <= k < |patches|
      ensures StepApplies(store, patches, k) <==> StepOk(ApplyPatch, store, patches, k)
    {
    }
  }

  /** When patch `k` is the first that cannot apply, `applyPatches` returns
      `false` and leaves exactly what patches `0..k-1` produced. */
  lemma ApplyPatchesFailsAt(store: Store, patches: seq<Patch>, k: nat)
    requires k < |patches|
    requires Prefix(ApplyPatch, store, patches, k).Some?
    requires !Applicable(Prefix(ApplyPatch, store, patches, k).value, patches[k])
    ensures ApplyPatches(store, patches) == Run(false, Prefix(ApplyPatch, store, patches, k).value)
    ensures ApplyPatches(store, patches).state.Keys == store.Keys
    ensures forall f :: f in store && !NamedIn(patches[..k], f) ==>
      ApplyPatches(store, patches).state[f] == store[f]
  {
    RunFailsAt(ApplyPatch, store, patches, k);
    PrefixFrame(store, patches, k);
  }

  /** `t` has the files of `store`, and every file that none of the first `j`
      patches names keeps its content from `store`. */
  ghost predicate FramedAfter(store: Store, patches: seq<Patch>, t: Store, j: nat)
  {
    && j <= |patches|
    && t.Keys == store.Keys
    && forall f :: f in store && !NamedIn(patches[..j], f) ==> t[f] == store[f]
  }

  /** After the first `k` patches have applied, the directory has the same
      files, and a file none of those patches names keeps its content. */
  lemma PrefixFrame(store: Store, patches: seq<Patch>, k: nat)
    requires k <= |patches|
    requires Prefix(ApplyPatch, store, patches, k).Some?
    ensures Prefix(ApplyPatch, store, patches, k).value.Keys == store.Keys
    ensures forall f :: f in store && !NamedIn(patches[..k], f) ==>
      Prefix(ApplyPatch, store, patches, k).value[f] == store[f]
  {
    var inv := (t: Store, j: nat) => FramedAfter(store, patches, t, j);
    forall t: Store, j: nat | j < |patches| && inv(t, j) && ApplyPatch(t, patches[j]).Some?
      ensures inv(ApplyPatch(t, patches[j]).value, j + 1)
    {
      var u := ApplyPatch(t, patches[j]).value;
      StepFrame(t, patches[j], u);
      forall f | f in store && !NamedIn(patches[..j + 1], f) ensures u[f] == store[f] {
        NotNamedInShorter(patches, j + 1, f);
      }
    }
    assert inv(store, 0);
    PrefixInvariant(ApplyPatch, store, patches, k, inv);
  }

  /** A patch that applies keeps the set of files and every file it does not
      name. */
  lemma StepFrame(prev: Store, p: Patch, cur: Store)
    requires ApplyPatch(prev, p) == Some(cur)
    ensures cur.Keys == prev.Keys
    ensures forall f :: f in prev && f != p.file ==> cur[f] == prev[f]
  {
  }

  /** A file no patch among the first `k` names is named neither by patch
      `k - 1` nor by the ones before it. */
  lemma NotNamedInShorter(patches: seq<Patch>, k: nat, f: string)
    requires 0 < k <= |patches| && !NamedIn(patches[..k], f)
    ensures f != patches[k - 1].file && !NamedIn(patches[..k - 1], f)
  {
    assert patches[..k][k - 1] == patches[k - 1];
    var shorter := patches[..k - 1];
    forall j | 0 <= j < |shorter| ensures shorter[j].file != f {
      assert shorter[j] == patches[..k][j];
    }
  }

  /** A patch naming a missing file stops the run at that patch. */
  lemma MissingFileStops(store: Store, patches: seq<Patch>, k: nat)
    requires k < |patches|
    requires Prefix(ApplyPatch, store, patches, k).Some?
    requires patches[k].file !in Prefix(ApplyPatch, store, patches, k).value
    ensures !ApplyPatches(store, patches).ok
    ensures ApplyPatches(store, patches).state == Prefix(ApplyPatch, store, patches, k).value
  {
    ApplyPatchesFailsAt(store, patches, k);
  }

  /** A patch whose `find` is absent from its file stops the run at that patch,
      and that file keeps the content the earlier patches gave it. */
  lemma MissingFindStops(store: Store, patches: seq<Patch>, k: nat)
    requires k < |patches|
    requires Prefix(ApplyPatch, store, patches, k).Some?
    requires patches[k].file in Prefix(ApplyPatch, store, patches, k).value
    requires !Contains(Prefix(ApplyPatch, store, patches, k).value[patches[k].file], patches[k].find)
    ensures !ApplyPatches(store, patches).ok
    ensures patches[k].file in ApplyPatches(store, patches).state
    ensures ApplyPatches(store, patches).state[patches[k].file] ==
            Prefix(ApplyPatch, store, patches, k).value[patches[k].file]
  {
    ApplyPatchesFailsAt(store, patches, k);
  }

  /** Patches on one file compose: `x -> y` then `y -> z` turns content `x`
      into `z`. */
  lemma DependentPatchesCompose(store: Store, f: string, x: string, y: string, z: string)
    requires f in store && store[f] == x
    requires '$' !in y && '$' !in z
    ensures ApplyPatches(store, [Patch(f, x, y), Patch(f, y, z)]) == Run(true, store[f := z])
  {
    var ps := [Patch(f, x, y), Patch(f, y, z)];
    WholeStringReplaced(x, y);
    var s1 := store[f := y];
    assert ApplyPatch(store, ps[0]) == Some(s1);
    WholeStringReplaced(y, z);
    assert ApplyPatch(s1, ps[1]) == Some(s1[f := z]);
    assert RunSteps(ApplyPatch, store, ps) == RunSteps(ApplyPatch, s1, ps[1..]);
    assert ps[1..][1..] == [];
    assert RunSteps(ApplyPatch, s1, ps[1..]) == RunSteps(ApplyPatch, s1[f := z], []);
    assert s1[f := z] == store[f := z];
  }

  /** Replacing a whole string by a `$`-free one yields that string. */
  lemma WholeStringReplaced(x: string, y: string)
    requires '$' !in y
    ensures Contains(x, x)
    ensures Replace(x, x, y) == y
  {
    assert OccursAt(x, x, 0);
    assert IsFirstOccurrence(x, x, 0);
    assert x[..0] == [] && x[|x|..] == [];
  }

  /** Two dependent patches on one file: `X -> Y`, then `Y -> Z`. */
  lemma DependentPatchesExample()
    ensures ApplyPatches(map["a.js" := "X"], [Patch("a.js", "X", "Y"), Patch("a.js", "Y", "Z")])
            == Run(true, map["a.js" := "Z"])
  {
    DependentPatchesCompose(map["a.js" := "X"], "a.js", "X", "Y", "Z");
    assert map["a.js" := "X"]["a.js" := "Z"] == map["a.js" := "Z"];
  }

  /** The loop of `applyPatches` as written, returning at the first patch that
      cannot apply. */
  method RunPatches(store: Store, patches: seq<Patch>) returns (ok: bool, out: Store)
    ensures Run(ok, out) == ApplyPatches(store, patches)
  {
    ok, out := RunLoop(ApplyPatch, store, patches);
  }
}
