/**
 Building an OverlayFS mount and its option string.

 `Decode` reads an option string the way the format is defined: options separated by commas,
 lower directories by colons. The builder's checks make the option string total, and it decodes to
 the directories given exactly when no path contains a separator.
 */
module Overlay {
  import opened Wrappers
  import opened Text

  type Path = string

  datatype OverlayMount = OverlayMount(
    mountpoint: Path,
    lowerDirs: seq<Path>,
    upperDir: Option<Path>,
    workDir: Option<Path>,
    readOnly: bool)

  datatype ConfigError = NoMountpoint | NoLowerDirectory | NoUpperDirectory | NoWorkDirectory

  // ------------------------------------------------------------------ the option string

  function Joined(paths: seq<Path>, c: char): string {
    if paths == [] then "" else Join(paths, c)
  }

  function ThreeOptions(a: string, b: string, c: string): string {
    a + "," + (b + "," + c)
  }

  // `None` where the source stops on a missing upper or work directory.
  function MountOptions(m: OverlayMount): Option<string> {
    var lower := Joined(m.lowerDirs, ':');
    if m.readOnly then Some("lowerdir=" + lower)
    else if m.upperDir.None? || m.workDir.None? then None
    else Some(ThreeOptions("lowerdir=" + lower, "upperdir=" + m.upperDir.value, "workdir=" + m.workDir.value))
  }

  class OverlayMountBuilder {
    var mountpoint: Option<Path>
    var lowerDirs: seq<Path>
    var upperDir: Option<Path>
    var workDir: Option<Path>
    var readOnly: bool

    constructor ()
      ensures mountpoint == None && lowerDirs == [] && upperDir == None && workDir == None && !readOnly
    {
      mountpoint, lowerDirs, upperDir, workDir, readOnly := None, [], None, None, false;
    }

    method LowerDir(path: Path)
      modifies this`lowerDirs
      ensures lowerDirs == old(lowerDirs) + [path]
    {
      lowerDirs := lowerDirs + [path];
    }

    method UpperDir(path: Path)
      modifies this`upperDir
      ensures upperDir == Some(path)
    {
      upperDir := Some(path);
    }

    method WorkDir(path: Path)
      modifies this`workDir
      ensures workDir == Some(path)
    {
      workDir := Some(path);
    }

    method MountPoint(path: Path)
      modifies this`mountpoint
      ensures mountpoint == Some(path)
    {
      mountpoint := Some(path);
    }

    method ReadOnly(flag: bool)
      modifies this`readOnly
      ensures readOnly == flag
    {
      readOnly := flag;
    }

    // Accepts exactly the mounts whose option string exists and names at least one lower directory;
    // a refusal reports the first thing missing.
    method Build() returns (r: Result<OverlayMount, ConfigError>)
      ensures r.Ok? ==>
        && mountpoint == Some(r.value.mountpoint)
        && r.value == OverlayMount(r.value.mountpoint, lowerDirs, upperDir, workDir, readOnly)
        && r.value.lowerDirs != []
        && MountOptions(r.value).Some?
      ensures r.Err? ==> match r.error
        case NoMountpoint => mountpoint == None
        case NoLowerDirectory => mountpoint.Some? && lowerDirs == []
        case NoUpperDirectory => mountpoint.Some? && lowerDirs != [] && !readOnly && upperDir == None
        case NoWorkDirectory => mountpoint.Some? && lowerDirs != [] && !readOnly && upperDir.Some? && workDir == None
    {
      if mountpoint.None? {
        return Err(NoMountpoint);
      }
      if lowerDirs == [] {
        return Err(NoLowerDirectory);
      }
      if !readOnly {
        if upperDir.None? {
          return Err(NoUpperDirectory);
        }
        if workDir.None? {
          return Err(NoWorkDirectory);
        }
      }
      return Ok(OverlayMount(mountpoint.value, lowerDirs, upperDir, workDir, readOnly));
    }
  }

  // ------------------------------------------------------------------ reading the option string

  // What an option string says: the lower directories and, for a read-write mount, the other two.
  datatype Layers = Layers(lower: seq<Path>, upperAndWork: Option<(Path, Path)>)

  function LayersOf(m: OverlayMount): Layers
    requires MountOptions(m).Some?
  {
    Layers(m.lowerDirs, if m.readOnly then None else Some((m.upperDir.value, m.workDir.value)))
  }

  function DecodeFields(fields: seq<string>): Option<Layers> {
    if |fields| == 1 && "lowerdir=" <= fields[0] then
      Some(Layers(Split(fields[0][9..], ':'), None))
    else if |fields| == 3 && "lowerdir=" <= fields[0] && "upperdir=" <= fields[1] && "workdir=" <= fields[2] then
      Some(Layers(Split(fields[0][9..], ':'), Some((fields[1][9..], fields[2][8..]))))
    else
      None
  }

  function Decode(options: string): Option<Layers> {
    DecodeFields(Split(options, ','))
  }

  // No lower directory contains a colon or a comma, and no directory in use contains a comma.
  predicate Separable(m: OverlayMount) {
    && (forall path <- m.lowerDirs :: ':' !in path && ',' !in path)
    && (!m.readOnly ==>
          && (m.upperDir.Some? ==> ',' !in m.upperDir.value)
          && (m.workDir.Some? ==> ',' !in m.workDir.value))
  }

  lemma SplitThree(a: string, b: string, c: string)
    requires ',' !in a && ',' !in b && ',' !in c
    ensures Split(ThreeOptions(a, b, c), ',') == [a, b, c]
  {
    SplitFirst(b, ',', c);
    SplitFirst(a, ',', b + "," + c);
  }

  lemma FieldsDecode(lower: string, upper: string, work: string)
    ensures DecodeFields(["lowerdir=" + lower]) == Some(Layers(Split(lower, ':'), None))
    ensures DecodeFields(["lowerdir=" + lower, "upperdir=" + upper, "workdir=" + work])
         == Some(Layers(Split(lower, ':'), Some((upper, work))))
  {
    assert ("lowerdir=" + lower)[9..] == lower;
    assert ("upperdir=" + upper)[9..] == upper;
    assert ("workdir=" + work)[8..] == work;
  }

  lemma SeparableDecodes(m: OverlayMount)
    requires m.lowerDirs != [] && MountOptions(m).Some? && Separable(m)
    ensures Decode(MountOptions(m).value) == Some(LayersOf(m))
  {
    var lower := Join(m.lowerDirs, ':');
    JoinHas(m.lowerDirs, ':', ',');
    SplitJoin(m.lowerDirs, ':');
    if m.readOnly {
      FieldsDecode(lower, "", "");
    } else {
      var upper, work := m.upperDir.value, m.workDir.value;
      FieldsDecode(lower, upper, work);
      SplitThree("lowerdir=" + lower, "upperdir=" + upper, "workdir=" + work);
    }
  }

  lemma DecodedIsSeparable(options: string, layers: Layers)
    requires Decode(options) == Some(layers)
    ensures layers.lower != []
    ensures forall path <- layers.lower :: ':' !in path && ',' !in path
    ensures layers.upperAndWork.Some? ==>
              ',' !in layers.upperAndWork.value.0 && ',' !in layers.upperAndWork.value.1
  {
    var fields := Split(options, ',');
    assert forall i :: 0 <= i < |fields| ==> ',' !in fields[i];
    var lower := Split(fields[0][9..], ':');
    forall path | path in lower
      ensures ',' !in path
    {
      assert forall d <- path :: d in fields[0][9..];
      assert ',' !in fields[0][9..];
    }
  }

  // The option strings as the kernel reads them, for one lower directory and for two.
  lemma OptionForms(mountpoint: Path, a: Path, b: Path, upper: Path, work: Path)
    ensures MountOptions(OverlayMount(mountpoint, [a], None, None, true)) == Some("lowerdir=" + a)
    ensures MountOptions(OverlayMount(mountpoint, [a, b], None, None, true)) == Some("lowerdir=" + a + ":" + b)
    ensures MountOptions(OverlayMount(mountpoint, [a, b], Some(upper), Some(work), false))
         == Some("lowerdir=" + a + ":" + b + ",upperdir=" + upper + ",workdir=" + work)
  {
    assert Join([b], ':') == b && Join([a], ':') == a;
    assert Join([a, b], ':') == a + ":" + b;
    assert "lowerdir=" + (a + ":" + b) == "lowerdir=" + a + ":" + b;
    assert ThreeOptions("lowerdir=" + (a + ":" + b), "upperdir=" + upper, "workdir=" + work)
        == "lowerdir=" + a + ":" + b + ",upperdir=" + upper + ",workdir=" + work;
  }

  // The option string of a mount says exactly its directories, in order, if and only if there is at
  // least one lower directory, which the builder checks, and no path contains a separator.
  lemma DecodesExactly(m: OverlayMount)
    requires MountOptions(m).Some?
    ensures Decode(MountOptions(m).value) == Some(LayersOf(m)) <==> m.lowerDirs != [] && Separable(m)
  {
    var options := MountOptions(m).value;
    if m.lowerDirs != [] && Separable(m) {
      SeparableDecodes(m);
    } else if Decode(options) == Some(LayersOf(m)) {
      DecodedIsSeparable(options, LayersOf(m));
    }
  }
}
