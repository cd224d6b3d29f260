/** Store paths as the narinfo core passes them around: the text after the
    store directory, with the directory put back on demand. */
module StorePaths {
  import opened Results
  import opened Text

  /** The store directory every absolute store path starts with. */
  const StoreDir: string := "/nix/store/"

  /** A store path held without its store directory, e.g.
      `"abc…-hello-2.12"` for `/nix/store/abc…-hello-2.12`. */
  datatype StorePath = StorePath(rel: string)
  {
    /** `without_prefix`: the path relative to the store directory. */
    function WithoutPrefix(): (s: string)
      ensures StoreDir + s == WithPrefix()
    {
      rel
    }

    /** `with_prefix`: the absolute path. */
    function WithPrefix(): (s: string)
      ensures StartsWith(s, StoreDir)
      ensures |s| == |StoreDir| + |rel| && s[|StoreDir|..] == rel
    {
      StoreDir + rel
    }
  }

  /** `StorePath::new`: strips one leading store directory when there is
      one and keeps any other text verbatim. It never fails. */
  function NewStorePath(path: string): (p: StorePath)
    ensures StartsWith(path, StoreDir) ==> p.WithPrefix() == path
    ensures !StartsWith(path, StoreDir) ==> p.WithoutPrefix() == path
  {
    match StripPrefix(path, StoreDir)
    case Some(rest) => StorePath(rest)
    case None => StorePath(path)
  }

  /** Building a store path from its absolute form gives the same path back,
      even when the relative part itself starts with the store directory:
      only one store directory is stripped. */
  lemma NewWithPrefix(p: StorePath)
    ensures NewStorePath(p.WithPrefix()) == p
  {
    assert p.WithPrefix()[|StoreDir|..] == p.rel;
  }

  /** An absolute store path survives the trip through `StorePath`. */
  lemma WithPrefixOfNew(s: string)
    requires StartsWith(s, StoreDir)
    ensures NewStorePath(s).WithPrefix() == s
    ensures NewStorePath(s).WithoutPrefix() == s[|StoreDir|..]
  {
  }

  /** Normalising twice is normalising once. */
  lemma NewIdempotent(s: string)
    ensures NewStorePath(NewStorePath(s).WithPrefix()) == NewStorePath(s)
  {
    NewWithPrefix(NewStorePath(s));
  }

  /** The path the nar route serves for its `<path>` segment
      (`StorePath::new(path).with_prefix()`). */
  function NarFilePath(segment: string): (path: string)
    ensures StartsWith(path, StoreDir)
    ensures StartsWith(segment, StoreDir) ==> path == segment
  {
    NewStorePath(segment).WithPrefix()
  }

  /** The nar route maps the relative form of a path back to the path,
      provided the relative form does not itself start with the store
      directory; when it does, the route serves a different file. */
  lemma NarFilePathInverts(p: StorePath)
    ensures !StartsWith(p.rel, StoreDir) ==> NarFilePath(p.WithoutPrefix()) == p.WithPrefix()
    ensures StartsWith(p.rel, StoreDir) ==> NarFilePath(p.WithoutPrefix()) != p.WithPrefix()
  {
    if StartsWith(p.rel, StoreDir) {
      assert |NarFilePath(p.WithoutPrefix())| == |p.rel| < |p.WithPrefix()|;
    }
  }
}
