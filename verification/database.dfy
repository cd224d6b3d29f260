/** The two catalog lookups behind a narinfo: the path information of the
    store path whose name starts with a hash, and the paths it refers to.
    The SQLite catalog is a value here: the rows of `ValidPaths` in the order
    of its unique index on `path`, and the rows of `Refs`. */
module Database {
  import opened Results
  import opened Text
  import opened StorePaths
  import Base32

  /** A row of `ValidPaths`: `id`, `path`, `hash` (tagged hex digest),
      `narSize` and the nullable `deriver`. */
  datatype ValidPathRow = ValidPathRow(id: int, path: string, hash: string, narSize: int, deriver: Option<string>)

  /** A row of `Refs`: path `referrer` refers to path `reference`. */
  datatype RefRow = RefRow(referrer: int, reference: int)

  /** The catalog as the queries see it, or a catalog that cannot be opened
      or read (every SQLite error). */
  datatype Catalog = Catalog(validPaths: seq<ValidPathRow>, refs: seq<RefRow>) | Unavailable

  /** What the catalog knows of one store path, with the digest already in
      Nix base-32. */
  datatype PathInfo = PathInfo(id: int, path: StorePath, narHash: string, narSize: int, deriver: Option<StorePath>)

  /** Why a lookup fails: the catalog, or the digest conversion. */
  datatype LookupError = StorageError | HashConversion(cause: Base32.EncodeError)

  /** `ValidPaths` in the order of its index on `path`. */
  predicate SortedByPath(rows: seq<ValidPathRow>)
  {
    forall i, j :: 0 <= i < j < |rows| ==> Le(rows[i].path, rows[j].path)
  }

  /** The absolute path a lookup for `hash` asks for. */
  function WantedPath(hash: string): (w: string)
    ensures StartsWith(w, StoreDir) && w[|StoreDir|..] == hash
  {
    StoreDir + hash
  }

  /** The row `WHERE path >= ? LIMIT 1` yields: the first row, in index
      order, whose path sorts at or after `wanted`. */
  function FirstAtLeast(rows: seq<ValidPathRow>, wanted: string): (r: Option<nat>)
    ensures r.Some? ==> r.value < |rows| && Le(wanted, rows[r.value].path)
    ensures r.Some? ==> forall k :: 0 <= k < r.value ==> !Le(wanted, rows[k].path)
    ensures r.None? ==> forall k :: 0 <= k < |rows| ==> !Le(wanted, rows[k].path)
  {
    if |rows| == 0 then None
    else if Le(wanted, rows[0].path) then Some(0)
    else
      match FirstAtLeast(rows[1..], wanted)
      case None => None
      case Some(k) => Some(k + 1)
  }

  /** The path information a row carries, once its digest is converted. */
  function RowInfo(row: ValidPathRow, narHash: string): (info: PathInfo)
    ensures info.id == row.id && info.narHash == narHash && info.narSize == row.narSize
    ensures info.path == NewStorePath(row.path)
    ensures info.deriver.Some? <==> row.deriver.Some?
    ensures info.deriver.Some? ==> info.deriver.value == NewStorePath(row.deriver.value)
  {
    PathInfo(row.id, NewStorePath(row.path), narHash, row.narSize, MapOption(row.deriver, NewStorePath))
  }

  /** `get_path_info`: reads the first row at or after the wanted path,
      converts its digest, and only then keeps the row if its path starts
      with the wanted path; a catalog failure or a digest that does not
      convert is an error, no row or a neighbouring row is `None`. */
  function GetPathInfo(catalog: Catalog, hash: string): (r: Result<Option<PathInfo>, LookupError>)
    ensures r == Err(StorageError) <==> catalog.Unavailable?
    ensures r.Ok? && r.value.Some? ==> StartsWith(r.value.value.path.WithPrefix(), WantedPath(hash))
    ensures r.Ok? && r.value.Some? ==>
              exists k :: 0 <= k < |catalog.validPaths| && r.value.value.path == NewStorePath(catalog.validPaths[k].path)
  {
    if catalog.Unavailable? then Err(StorageError)
    else
      var wanted := WantedPath(hash);
      match FirstAtLeast(catalog.validPaths, wanted)
      case None => Ok(None)
      case Some(i) =>
        var row := catalog.validPaths[i];
        match Base32.NarHashToBase32(row.hash)
        case Err(e) => Err(HashConversion(e))
        case Ok(narHash) =>
          var info := RowInfo(row, narHash);
          if StartsWith(info.path.WithPrefix(), wanted) then Ok(Some(info)) else Ok(None)
  }

  /** A catalog with no path at or after the wanted one gives `None`. */
  lemma NoRowGivesNone(catalog: Catalog, hash: string)
    requires catalog.Catalog?
    requires forall k :: 0 <= k < |catalog.validPaths| ==> !Le(WantedPath(hash), catalog.validPaths[k].path)
    ensures GetPathInfo(catalog, hash) == Ok(None)
  {
  }

  /** The digest of the row read is converted before the row is checked: a
      digest that does not convert is an error even when the row is only a
      neighbour that would have been dropped. */
  lemma HashFailureGivesErr(catalog: Catalog, hash: string, i: nat)
    requires catalog.Catalog?
    requires FirstAtLeast(catalog.validPaths, WantedPath(hash)) == Some(i)
    requires Base32.NarHashToBase32(catalog.validPaths[i].hash).Err?
    ensures GetPathInfo(catalog, hash) == Err(HashConversion(Base32.NarHashToBase32(catalog.validPaths[i].hash).error))
  {
  }

  /** A row whose path does not start with the wanted path is not returned
      in its place: the answer is `None`. */
  lemma NeighbourGivesNone(catalog: Catalog, hash: string, i: nat)
    requires catalog.Catalog?
    requires FirstAtLeast(catalog.validPaths, WantedPath(hash)) == Some(i)
    requires Base32.NarHashToBase32(catalog.validPaths[i].hash).Ok?
    requires StartsWith(catalog.validPaths[i].path, StoreDir)
    requires !StartsWith(catalog.validPaths[i].path, WantedPath(hash))
    ensures GetPathInfo(catalog, hash) == Ok(None)
  {
    WithPrefixOfNew(catalog.validPaths[i].path);
  }

  /** A prefix of a text's prefix is a prefix of the text. */
  lemma StartsWithTransitive(s: string, p: string, q: string)
    requires StartsWith(s, p) && StartsWith(p, q)
    ensures StartsWith(s, q)
  {
    assert s[..|q|] == s[..|p|][..|q|];
  }

  /** The single-row lookup misses no match: when some path of a catalog in
      index order starts with the wanted path, the first row at or after the
      wanted path is such a path, and the lookup returns it unless its digest
      does not convert. */
  lemma LookupComplete(catalog: Catalog, hash: string, k: nat)
    requires catalog.Catalog? && SortedByPath(catalog.validPaths)
    requires k < |catalog.validPaths| && StartsWith(catalog.validPaths[k].path, WantedPath(hash))
    ensures FirstAtLeast(catalog.validPaths, WantedPath(hash)).Some?
    ensures var i := FirstAtLeast(catalog.validPaths, WantedPath(hash)).value;
            var row := catalog.validPaths[i];
            StartsWith(row.path, WantedPath(hash))
            && (Base32.NarHashToBase32(row.hash).Ok? ==>
                  GetPathInfo(catalog, hash) == Ok(Some(RowInfo(row, Base32.NarHashToBase32(row.hash).value)))
                  && RowInfo(row, Base32.NarHashToBase32(row.hash).value).path.WithPrefix() == row.path)
  {
    var rows, wanted := catalog.validPaths, WantedPath(hash);
    PrefixLe(wanted, rows[k].path);
    var i := FirstAtLeast(rows, wanted).value;
    assert i <= k;
    if i < k {
      assert Le(rows[i].path, rows[k].path);
      PrefixRunContiguous(wanted, rows[i].path, rows[k].path);
    }
    StartsWithTransitive(rows[i].path, wanted, StoreDir);
    WithPrefixOfNew(rows[i].path);
  }

  /** Under index order the row the lookup reads is the least path at or
      after the wanted one. */
  lemma FirstIsLeast(rows: seq<ValidPathRow>, wanted: string, k: nat)
    requires SortedByPath(rows)
    requires k < |rows| && Le(wanted, rows[k].path)
    ensures FirstAtLeast(rows, wanted).Some?
    ensures Le(rows[FirstAtLeast(rows, wanted).value].path, rows[k].path)
  {
    var i := FirstAtLeast(rows, wanted).value;
    if i == k {
      LeReflexive(rows[k].path);
    }
  }

  /** The paths of the `ValidPaths` rows with a given id, in row order. */
  function PathsWithId(rows: seq<ValidPathRow>, id: int): (paths: seq<string>)
    ensures |paths| <= |rows|
    ensures (forall k :: 0 <= k < |rows| ==> rows[k].id != id) ==> paths == []
    ensures forall p :: p in paths <==> exists m :: 0 <= m < |rows| && rows[m].id == id && rows[m].path == p
  {
    if |rows| == 0 then []
    else (if rows[0].id == id then [rows[0].path] else []) + PathsWithId(rows[1..], id)
  }

  /** The rows of `SELECT path FROM Refs JOIN ValidPaths ON reference = id
      WHERE referrer = ?`: for each reference of `referrer`, in `Refs` order,
      the path of the referenced row. */
  function ReferencedPaths(refs: seq<RefRow>, rows: seq<ValidPathRow>, referrer: int): (paths: seq<string>)
    ensures (forall k :: 0 <= k < |refs| ==> refs[k].referrer != referrer) ==> paths == []
    ensures forall p :: p in paths <==>
              exists a, m :: 0 <= a < |refs| && refs[a].referrer == referrer
                             && 0 <= m < |rows| && rows[m].id == refs[a].reference && rows[m].path == p
  {
    if |refs| == 0 then []
    else (if refs[0].referrer == referrer then PathsWithId(rows, refs[0].reference) else [])
         + ReferencedPaths(refs[1..], rows, referrer)
  }

  /** One store path per row, in row order. */
  function NewStorePaths(paths: seq<string>): (ps: seq<StorePath>)
    ensures |ps| == |paths|
    ensures forall k :: 0 <= k < |paths| ==> ps[k] == NewStorePath(paths[k])
  {
    if |paths| == 0 then [] else [NewStorePath(paths[0])] + NewStorePaths(paths[1..])
  }

  /** `get_references`: the referenced paths as store paths, neither sorted
      nor deduplicated. */
  function GetReferences(catalog: Catalog, info: PathInfo): (r: Result<seq<StorePath>, LookupError>)
    ensures r.Err? <==> catalog.Unavailable?
    ensures r.Err? ==> r.error == StorageError
    ensures r.Ok? ==> |r.value| == |ReferencedPaths(catalog.refs, catalog.validPaths, info.id)|
  {
    if catalog.Unavailable? then Err(StorageError)
    else Ok(NewStorePaths(ReferencedPaths(catalog.refs, catalog.validPaths, info.id)))
  }

  /** Store paths made from absolute store paths give those paths back,
      one for one and in order. */
  lemma NewStorePathsKeepPaths(paths: seq<string>)
    requires forall k :: 0 <= k < |paths| ==> StartsWith(paths[k], StoreDir)
    ensures forall k :: 0 <= k < |paths| ==> NewStorePaths(paths)[k].WithPrefix() == paths[k]
  {
    forall k | 0 <= k < |paths|
      ensures NewStorePaths(paths)[k].WithPrefix() == paths[k]
    {
      WithPrefixOfNew(paths[k]);
    }
  }

  /** The absolute forms of the references are exactly the rows the query
      returned, in the same order and with the same repetitions, whenever
      those rows are absolute store paths. */
  lemma ReferencesKeepRows(catalog: Catalog, info: PathInfo, paths: seq<string>)
    requires catalog.Catalog? && paths == ReferencedPaths(catalog.refs, catalog.validPaths, info.id)
    requires forall k :: 0 <= k < |paths| ==> StartsWith(paths[k], StoreDir)
    ensures GetReferences(catalog, info).Ok?
    ensures var refs := GetReferences(catalog, info).value;
            |refs| == |paths| && forall k :: 0 <= k < |refs| ==> refs[k].WithPrefix() == paths[k]
  {
    NewStorePathsKeepPaths(paths);
  }

  /** A path referred to twice is listed twice: references are not
      deduplicated. */
  lemma ReferencesNotDeduplicated(catalog: Catalog, info: PathInfo, row: ValidPathRow)
    requires catalog == Catalog([row], [RefRow(info.id, row.id), RefRow(info.id, row.id)])
    ensures GetReferences(catalog, info) == Ok([NewStorePath(row.path), NewStorePath(row.path)])
  {
    var once := PathsWithId([row], row.id);
    assert once == [row.path];
    assert catalog.refs[1..][1..] == [];
    assert ReferencedPaths(catalog.refs[1..], [row], info.id) == once;
    assert ReferencedPaths(catalog.refs, [row], info.id) == once + once;
    assert NewStorePaths(once + once) == [NewStorePath(row.path), NewStorePath(row.path)];
  }
}
