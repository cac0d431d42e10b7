/** The whole floppy builder: from given files to an image. */
module FloppyBuilder {
  import opened Bytes
  import L = FatListing
  import T = FatTree
  import W = FatWalk
  import R = FloppyReader
  import V = FloppyVolume
  import opened FloppyTree
  import F = Floppy
  import opened FloppySource
  import opened FloppyRoom
  import opened FloppyShown

  const README_NAME := "readme.txt"
  const README_TEXT := "REIST OS rescue floppy\r\nBootloader and kernel occupy reserved FAT12 sectors.\r\n"

  /** The given files behind the fixed readme. */
  function AllSources(given: seq<T.Source>): seq<T.Source> {
    [T.Source(README_NAME, NameBytes(README_TEXT))] + given
  }

  /** The whole input can be laid out as a tree. */
  ghost predicate Plantable(sources: seq<T.Source>) { T.Sensible([], sources) && !L.Overfull(T.Demands([], sources)) }

  /** Builds the tree of the sources and lists it as a value. */
  method PrepareTree(sources: seq<T.Source>)
    returns (ok: bool, dirs: Tree, ghost root: T.FatDirectory, ghost nodes: set<T.FatDirectory>,
             ghost list: seq<T.FatDirectory>)
    requires T.Keyed(sources)
    ensures ok <==> Plantable(sources)
    ensures ok ==> Flattened(root, nodes, list, sources, dirs) && T.Folders(nodes) == T.Wanted([], sources)
  {
    var r, top;
    r, top, nodes := T.BuildTree(sources, []);
    ok, dirs, root, list := r == T.Done, [], top, [];
    if ok {
      var walk := W.WalkDirectories(top, nodes);
      list := walk;
      dirs := Flatten(walk);
      FlatIsTree(root, nodes, list, dirs);
      FlatConnected(root, nodes, list, dirs);
    }
  }

  /** Stores a listed tree in an image. */
  method StoreTree(b: F.Boot, dirs: Tree) returns (ok: bool, image: seq<Byte>, ghost layout: Layout)
    requires F.SectorsGiven(b) && IsTree(dirs)
    ensures ok <==> F.Bootable(b) && V.Roomy(dirs, F.ReservedSectors(b))
    ensures ok ==> F.Finished(image, b, V.End(dirs))
    ensures ok ==> forall path :: PathOk(path) ==>
                     R.Resolve(R.ReaderOf(image), R.RootOf(image), path) == Lookup(dirs, 0, path)
    ensures ok ==> Fits(layout, dirs) && R.Sized(image) && Stored(R.ReaderOf(image), R.RootOf(image), dirs, layout)
  {
    ghost var data;
    ok, image, layout, data := F.CreateFloppyImage(b, dirs);
    if ok {
      forall path | PathOk(path)
        ensures R.Resolve(R.ReaderOf(image), R.RootOf(image), path) == Lookup(dirs, 0, path)
      {
        V.VolumeReadsBack(image, F.ReservedSectors(b), dirs, layout, data, path);
      }
      V.VolumeStored(image, F.ReservedSectors(b), dirs, layout, data);
    }
  }

  predicate ReadmeGiven(given: seq<T.Source>) { exists k :: 0 <= k < |given| && given[k].path == README_NAME }

  /** The parts can boot, the files make a tree, and the tree fits behind the boot parts. */
  ghost predicate Buildable(b: F.Boot, sources: seq<T.Source>) {
    F.Bootable(b) && Plantable(sources) && RoomFor(sources, F.ReservedSectors(b))
  }

  /** Stores a planted tree. */
  method StorePlanted(b: F.Boot, sources: seq<T.Source>, dirs: Tree, ghost root: T.FatDirectory,
                      ghost nodes: set<T.FatDirectory>, ghost list: seq<T.FatDirectory>)
    returns (ok: bool, image: seq<Byte>)
    requires F.SectorsGiven(b) && Flattened(root, nodes, list, sources, dirs) && T.Folders(nodes) == T.Wanted([], sources)
    requires !L.Overfull(T.Demands([], sources))
    ensures ok <==> F.Bootable(b) && RoomFor(sources, F.ReservedSectors(b))
    ensures ok ==> F.Finished(image, b, 2 + ClustersFor(sources)) && HoldsExactly(image, sources) && ShowsAll(image, sources)
  {
    ghost var layout;
    ok, image, layout := StoreTree(b, dirs);
    assert V.End(dirs) == 2 + ClustersFor(sources) by {
      ClustersCounted(root, nodes, list, sources, dirs);
    }
    if ok {
      assert HoldsExactly(image, sources) by {
        SourcesRead(root, nodes, list, sources, dirs, image);
      }
      assert ShowsAll(image, sources) by {
        SourcesShown(root, nodes, list, sources, dirs, layout, image);
      }
    }
  }

  /** Plants the tree of all sources and stores it. */
  method CreateFrom(b: F.Boot, sources: seq<T.Source>) returns (ok: bool, image: seq<Byte>)
    requires F.SectorsGiven(b) && T.Keyed(sources)
    ensures ok <==> Buildable(b, sources)
    ensures ok ==> F.Finished(image, b, 2 + ClustersFor(sources)) && HoldsExactly(image, sources) && ShowsAll(image, sources)
  {
    var planted, dirs;
    ghost var root, nodes, list;
    planted, dirs, root, nodes, list := PrepareTree(sources);
    if !planted { return false, []; }
    ok, image := StorePlanted(b, sources, dirs, root, nodes, list);
  }

  /**
   * The whole builder. It returns an image exactly when no given file takes the
   * readme's path and the input is buildable. The loader then finds its parts,
   * both FATs are equal and clean, and a reader of the bare image finds every
   * given file under its path in short names, with exactly its bytes, and
   * nothing else; a listing shows every component stored under its 8.3 name as
   * it was given.
   */
  method CreateFloppy(b: F.Boot, given: seq<T.Source>) returns (ok: bool, image: seq<Byte>)
    requires F.SectorsGiven(b) && T.Keyed(given)
    ensures ok <==> !ReadmeGiven(given) && Buildable(b, AllSources(given))
    ensures ok ==> F.Finished(image, b, 2 + ClustersFor(AllSources(given))) && HoldsExactly(image, AllSources(given))
    ensures ok ==> ShowsAll(image, AllSources(given))
  {
    if ReadmeGiven(given) { return false, []; }
    ok, image := CreateFrom(b, AllSources(given));
  }
}
