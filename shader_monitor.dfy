/**
 * The shader monitor: a list of shader assets, each remembering the files it was built
 * from and the files it included; a file-modified notification flags the assets that
 * use the file, and `handle_recompile` rebuilds the flagged ones.
 *
 * Reading a file, matching an include line, compiling a program and taking the
 * filename-with-extension of a path are parameters (`read`, `matchInclude`, `compiles`,
 * `fileName`).
 */
module ShaderMonitor {
  import opened Wrappers
  import opened ShaderPreprocess

  /** The sources a compiled program was built from; the geometry stage may be empty. */
  datatype ProgramSource = ProgramSource(vertex: string, fragment: string, geometry: string)

  datatype ShaderAsset = ShaderAsset(
    vertexPath: string,
    fragmentPath: string,
    geomPath: string,
    includePath: string,
    defines: seq<string>,
    includes: seq<string>,
    program: Option<ProgramSource>,
    shouldRecompile: bool)

  /** The file system events the watcher reports. */
  datatype Action = Add | Delete | Modified | Moved

  /** The asset as its constructor sets it up before calling `recompile`. */
  function NewAsset(v: string, f: string, g: string, inc: string, defines: seq<string>): ShaderAsset {
    ShaderAsset(v, f, g, inc, defines, [], None, false)
  }

  /** True iff the asset's defines or include path ask for preprocessing. */
  predicate Preprocesses(a: ShaderAsset) {
    |a.defines| > 0 || |a.includePath| > 0
  }

  /**
   * `recompile`: the flag is cleared; with defines or an include path the stages go through
   * `preprocess` (which appends to `includes` even when it throws), otherwise the three files
   * are used as read. When preprocessing throws or the program does not compile, the old
   * program is kept.
   */
  function Recompiled(a: ShaderAsset, read: string -> string, matchInclude: string -> Option<string>,
                      compiles: ProgramSource -> bool): (r: ShaderAsset)
    ensures !r.shouldRecompile
    ensures r.vertexPath == a.vertexPath && r.fragmentPath == a.fragmentPath && r.geomPath == a.geomPath
    ensures r.includePath == a.includePath && r.defines == a.defines
    ensures a.includes <= r.includes
    ensures !Preprocesses(a) ==> r.includes == a.includes
    ensures r.program == a.program || (r.program.Some? && compiles(r.program.value))
  {
    var cleared := a.(shouldRecompile := false);
    if Preprocesses(a) then
      var p := Preprocessed(read(a.vertexPath), read(a.fragmentPath), a.includePath, a.defines, read, matchInclude);
      var withIncludes := cleared.(includes := a.includes + p.added);
      if p.shader.Ok? && compiles(ProgramSource(p.shader.value.vertex, p.shader.value.fragment, "")) then
        withIncludes.(program := Some(ProgramSource(p.shader.value.vertex, p.shader.value.fragment, "")))
      else withIncludes
    else
      var src := ProgramSource(read(a.vertexPath), read(a.fragmentPath), read(a.geomPath));
      if compiles(src) then cleared.(program := Some(src)) else cleared
  }

  /** True iff `filename` names one of the asset's stages or one of the files it included. */
  predicate Touches(a: ShaderAsset, filename: string, fileName: string -> string) {
    fileName(filename) == fileName(a.vertexPath) ||
    fileName(filename) == fileName(a.fragmentPath) ||
    fileName(filename) == fileName(a.geomPath) ||
    exists j :: 0 <= j < |a.includes| && fileName(filename) == fileName(a.includes[j])
  }

  /** The assets after the listener callback for `filename`: those it touches are flagged, nothing else changes. */
  function Flagged(assets: seq<ShaderAsset>, filename: string, fileName: string -> string): seq<ShaderAsset> {
    seq(|assets|, i requires 0 <= i < |assets| =>
      assets[i].(shouldRecompile := assets[i].shouldRecompile || Touches(assets[i], filename, fileName)))
  }

  /** The assets after `handle_recompile`: flagged ones recompiled, the others as they were. */
  function RecompileFlagged(assets: seq<ShaderAsset>, read: string -> string, matchInclude: string -> Option<string>,
                            compiles: ProgramSource -> bool): seq<ShaderAsset> {
    seq(|assets|, i requires 0 <= i < |assets| =>
      if assets[i].shouldRecompile then Recompiled(assets[i], read, matchInclude, compiles) else assets[i])
  }

  class Monitor {
    var assets: seq<ShaderAsset>

    /** The file watcher on the base path is not part of this model; the monitor starts with no assets. */
    constructor ()
      ensures assets == []
    {
      assets := [];
    }

    /** `watch(vertex, fragment, geometry)`: one new asset, compiled once, appended. */
    method Watch(vertexShader: string, fragmentShader: string, geometryShader: string,
                 read: string -> string, matchInclude: string -> Option<string>, compiles: ProgramSource -> bool)
      modifies this
      ensures assets == old(assets) + [Recompiled(NewAsset(vertexShader, fragmentShader, geometryShader, "", []), read, matchInclude, compiles)]
    {
      var asset := Recompiled(NewAsset(vertexShader, fragmentShader, geometryShader, "", []), read, matchInclude, compiles);
      assets := assets + [asset];
    }

    /** `watch(vertex, fragment, includePath, defines)`: one new asset without geometry stage, compiled once, appended. */
    method WatchWithDefines(vertexShader: string, fragmentShader: string, includePath: string, defines: seq<string>,
                            read: string -> string, matchInclude: string -> Option<string>, compiles: ProgramSource -> bool)
      modifies this
      ensures assets == old(assets) + [Recompiled(NewAsset(vertexShader, fragmentShader, "", includePath, defines), read, matchInclude, compiles)]
    {
      var asset := Recompiled(NewAsset(vertexShader, fragmentShader, "", includePath, defines), read, matchInclude, compiles);
      assets := assets + [asset];
    }

    /** The listener: only a `Modified` action runs the callback, which flags every asset the file touches. */
    method HandleFileAction(filename: string, action: Action, fileName: string -> string)
      modifies this
      ensures action != Modified ==> assets == old(assets)
      ensures action == Modified ==> assets == Flagged(old(assets), filename, fileName)
    {
      if action == Modified {
        var i := 0;
        while i < |assets|
          invariant 0 <= i <= |assets| == |old(assets)|
          invariant assets[..i] == Flagged(old(assets), filename, fileName)[..i]
          invariant assets[i..] == old(assets)[i..]
        {
          var shader := assets[i];
          var name := fileName(filename);
          if name == fileName(shader.vertexPath) || name == fileName(shader.fragmentPath) || name == fileName(shader.geomPath) {
            shader := shader.(shouldRecompile := true);
          }
          var hit := AnyIncludeMatches(shader.includes, name, fileName);
          if hit {
            shader := shader.(shouldRecompile := true);
          }
          assert old(assets)[i] == old(assets)[i..][0];
          var a := old(assets)[i];
          assert shader == a.(shouldRecompile := a.shouldRecompile || Touches(a, filename, fileName));
          assets := assets[i := shader];
          assert assets[..i + 1] == assets[..i] + [shader];
          i := i + 1;
        }
        assert assets[..i] == assets;
      }
    }

    /** `handle_recompile`: each flagged asset is recompiled, in order. */
    method HandleRecompile(read: string -> string, matchInclude: string -> Option<string>, compiles: ProgramSource -> bool)
      modifies this
      ensures assets == RecompileFlagged(old(assets), read, matchInclude, compiles)
    {
      var i := 0;
      while i < |assets|
        invariant 0 <= i <= |assets| == |old(assets)|
        invariant assets[..i] == RecompileFlagged(old(assets), read, matchInclude, compiles)[..i]
        invariant assets[i..] == old(assets)[i..]
      {
        assert old(assets)[i] == old(assets)[i..][0];
        if assets[i].shouldRecompile {
          assets := assets[i := Recompiled(assets[i], read, matchInclude, compiles)];
        }
        assert assets[..i + 1] == assets[..i] + [assets[i]];
        i := i + 1;
      }
      assert assets[..i] == assets;
    }
  }

  /** The inner loop of the callback: true iff some include has the same filename, scanning stops at the first. */
  method AnyIncludeMatches(includes: seq<string>, name: string, fileName: string -> string) returns (hit: bool)
    ensures hit <==> exists j :: 0 <= j < |includes| && name == fileName(includes[j])
  {
    hit := false;
    for j := 0 to |includes|
      invariant !hit
      invariant forall k :: 0 <= k < j ==> name != fileName(includes[k])
    {
      if name == fileName(includes[j]) {
        hit := true;
        break;
      }
    }
  }

  /** The callback flags exactly the touched assets, keeps the flags already set and changes nothing else. */
  lemma FlaggedExactly(assets: seq<ShaderAsset>, filename: string, fileName: string -> string, i: nat)
    requires i < |assets|
    ensures |Flagged(assets, filename, fileName)| == |assets|
    ensures var b := Flagged(assets, filename, fileName)[i];
      (b.shouldRecompile <==> assets[i].shouldRecompile || Touches(assets[i], filename, fileName)) &&
      b.(shouldRecompile := assets[i].shouldRecompile) == assets[i]
  {
  }

  /** A second notification for the same file changes nothing. */
  lemma FlaggedIdempotent(assets: seq<ShaderAsset>, filename: string, fileName: string -> string)
    ensures Flagged(Flagged(assets, filename, fileName), filename, fileName) == Flagged(assets, filename, fileName)
  {
    var once := Flagged(assets, filename, fileName);
    forall i | 0 <= i < |assets| ensures Flagged(once, filename, fileName)[i] == once[i] {
      assert Touches(once[i], filename, fileName) == Touches(assets[i], filename, fileName) by {
        assert once[i].includes == assets[i].includes;
      }
    }
  }

  /** Notifications for two files have the same effect in either order. */
  lemma FlaggedCommutes(assets: seq<ShaderAsset>, f: string, g: string, fileName: string -> string)
    ensures Flagged(Flagged(assets, f, fileName), g, fileName) == Flagged(Flagged(assets, g, fileName), f, fileName)
  {
    var af, ag := Flagged(assets, f, fileName), Flagged(assets, g, fileName);
    forall i | 0 <= i < |assets|
      ensures Flagged(af, g, fileName)[i] == Flagged(ag, f, fileName)[i]
    {
      assert af[i].includes == assets[i].includes && ag[i].includes == assets[i].includes;
      assert Touches(af[i], g, fileName) == Touches(assets[i], g, fileName);
      assert Touches(ag[i], f, fileName) == Touches(assets[i], f, fileName);
    }
  }

  /** After `handle_recompile` no asset is flagged, and the number of assets is unchanged. */
  lemma RecompileClearsFlags(assets: seq<ShaderAsset>, read: string -> string, matchInclude: string -> Option<string>,
                             compiles: ProgramSource -> bool)
    ensures |RecompileFlagged(assets, read, matchInclude, compiles)| == |assets|
    ensures forall i :: 0 <= i < |assets| ==> !RecompileFlagged(assets, read, matchInclude, compiles)[i].shouldRecompile
  {
  }

  /** A second `handle_recompile` with nothing notified in between does nothing. */
  lemma RecompileIdempotent(assets: seq<ShaderAsset>, read: string -> string, matchInclude: string -> Option<string>,
                            compiles: ProgramSource -> bool)
    ensures RecompileFlagged(RecompileFlagged(assets, read, matchInclude, compiles), read, matchInclude, compiles)
         == RecompileFlagged(assets, read, matchInclude, compiles)
  {
    var once := RecompileFlagged(assets, read, matchInclude, compiles);
    forall i | 0 <= i < |assets| ensures RecompileFlagged(once, read, matchInclude, compiles)[i] == once[i] {
      assert !once[i].shouldRecompile;
    }
  }

  /** Only flagged assets are rebuilt: an unflagged asset is left exactly as it was. */
  lemma RecompileOnlyFlagged(assets: seq<ShaderAsset>, read: string -> string, matchInclude: string -> Option<string>,
                             compiles: ProgramSource -> bool, i: nat)
    requires i < |assets| && !assets[i].shouldRecompile
    ensures RecompileFlagged(assets, read, matchInclude, compiles)[i] == assets[i]
  {
  }

  /**
   * A file that no asset uses triggers no rebuild: after its notification and
   * `handle_recompile`, assets that were not flagged are left exactly as they were.
   */
  lemma UnrelatedFileRebuildsNothing(assets: seq<ShaderAsset>, filename: string, fileName: string -> string,
                                     read: string -> string, matchInclude: string -> Option<string>,
                                     compiles: ProgramSource -> bool, i: nat)
    requires i < |assets| && !assets[i].shouldRecompile && !Touches(assets[i], filename, fileName)
    ensures RecompileFlagged(Flagged(assets, filename, fileName), read, matchInclude, compiles)[i] == assets[i]
  {
    var b := Flagged(assets, filename, fileName)[i];
    assert b == assets[i].(shouldRecompile := false);
  }

  /** Without defines and include path the three stage files are compiled exactly as read. */
  lemma RecompileUnprocessed(a: ShaderAsset, read: string -> string, matchInclude: string -> Option<string>,
                             compiles: ProgramSource -> bool)
    requires !Preprocesses(a)
    requires compiles(ProgramSource(read(a.vertexPath), read(a.fragmentPath), read(a.geomPath)))
    ensures Recompiled(a, read, matchInclude, compiles).program == Some(ProgramSource(read(a.vertexPath), read(a.fragmentPath), read(a.geomPath)))
  {
  }

  /** A failed rebuild keeps the old program: a broken shader edit never replaces a working one. */
  lemma RecompileFailureKeepsProgram(a: ShaderAsset, read: string -> string, matchInclude: string -> Option<string>,
                                     compiles: ProgramSource -> bool)
    requires forall s: ProgramSource :: !compiles(s)
    ensures Recompiled(a, read, matchInclude, compiles).program == a.program
  {
  }
}
