/** The `/<hash>.narinfo` endpoint: the request's file name, the text record
    it answers with, and the statuses of the steps that can fail. */
module NarInfo {
  import opened Results
  import opened Text
  import opened StorePaths
  import opened Database
  import opened Signature

  /** The extension a narinfo request ends with. */
  const Suffix: string := ".narinfo"

  /** `NarInfoRequest::from_param`: the hash is the file name without its
      extension; a name without the extension is handed back unchanged. */
  function FromParam(param: string): (r: Result<string, string>)
    ensures r.Ok? <==> EndsWith(param, Suffix)
    ensures r.Ok? ==> r.value + Suffix == param
    ensures r.Err? ==> r.error == param
  {
    match StripSuffix(param, Suffix)
    case Some(hash) => Ok(hash)
    case None => Err(param)
  }

  /** The request for a hash gives back that hash: exactly one extension is
      removed, so `x.narinfo.narinfo` asks for `x.narinfo`. */
  lemma {:induction false} FromParamOfHash(hash: string)
    ensures FromParam(hash + Suffix) == Ok(hash)
  {
    var param := hash + Suffix;
    assert param[|param| - |Suffix|..] == Suffix;
    assert param[..|param| - |Suffix|] == hash;
  }

  /** The references relative to the store directory, in order. */
  function RelativePaths(refs: seq<StorePath>): (rels: seq<string>)
    ensures |rels| == |refs|
    ensures forall k :: 0 <= k < |refs| ==> rels[k] == refs[k].WithoutPrefix()
  {
    if |refs| == 0 then [] else [refs[0].WithoutPrefix()] + RelativePaths(refs[1..])
  }

  /** The value of the `References` line: the relative reference paths,
      one space apart, the first one first. */
  function ReferenceList(refs: seq<StorePath>): (l: string)
    ensures |refs| == 0 ==> l == ""
    ensures |refs| == 1 ==> l == refs[0].WithoutPrefix()
    ensures |refs| > 1 ==> StartsWith(l, refs[0].WithoutPrefix() + " ")
  {
    Join(" ", RelativePaths(refs))
  }

  /** A key and its value. */
  type Field = (string, string)

  /** The text of one field: `key: value`. */
  function LineText(f: Field): string
  {
    f.0 + ": " + f.1
  }

  /** One line of the record, ending with a newline. */
  function Line(f: Field): string
  {
    LineText(f) + "\n"
  }

  /** The response text, as the two format strings of the handler write it:
      the Deriver line is written only when there is a deriver. */
  function NarInfoText(info: PathInfo, refs: seq<StorePath>, sig: string): (t: string)
  {
    var head :=
      Line(("StorePath", info.path.WithPrefix()))
      + Line(("URL", "nar/" + info.path.WithoutPrefix()))
      + Line(("Compression", "none"))
      + Line(("FileHash", info.narHash))
      + Line(("FileSize", Decimal(info.narSize)))
      + Line(("NarHash", info.narHash))
      + Line(("NarSize", Decimal(info.narSize)))
      + Line(("References", ReferenceList(refs)));
    match info.deriver
    case Some(deriver) => head + Line(("Deriver", deriver.WithoutPrefix())) + Line(("Sig", sig))
    case None => head + Line(("Sig", sig))
  }

  /** A narinfo record as a list of fields, in the order a reader meets
      them, from the texts of its values. */
  function Record(path: string, url: string, hash: string, size: string, references: string,
                  deriver: Option<string>, sig: string): seq<Field>
  {
    [("StorePath", path),
     ("URL", url),
     ("Compression", "none"),
     ("FileHash", hash),
     ("FileSize", size),
     ("NarHash", hash),
     ("NarSize", size),
     ("References", references)]
    + (if deriver.Some? then [("Deriver", deriver.value)] else [])
    + [("Sig", sig)]
  }

  /** The record the handler writes for a path, its references and its
      signature. */
  function Fields(info: PathInfo, refs: seq<StorePath>, sig: string): seq<Field>
  {
    Record(info.path.WithPrefix(), "nar/" + info.path.WithoutPrefix(), info.narHash, Decimal(info.narSize),
           ReferenceList(refs), MapOption(info.deriver, (p: StorePath) => p.WithoutPrefix()), sig)
  }

  /** The text of a list of fields, one line each. */
  function Render(fields: seq<Field>): string
  {
    if |fields| == 0 then "" else Line(fields[0]) + Render(fields[1..])
  }

  lemma {:induction false} RenderAppend(a: seq<Field>, b: seq<Field>)
    ensures Render(a + b) == Render(a) + Render(b)
    decreases |a|
  {
    if |a| == 0 {
      assert a + b == b;
    } else {
      assert (a + b)[0] == a[0];
      assert (a + b)[1..] == a[1..] + b;
      RenderAppend(a[1..], b);
    }
  }

  lemma {:induction false} RenderOne(f: Field)
    ensures Render([f]) == Line(f)
  {
    assert Render([f][1..]) == "";
  }

  /** The text the handler writes is the record's fields rendered in
      order. */
  lemma {:induction false} TextIsRendered(info: PathInfo, refs: seq<StorePath>, sig: string)
    ensures NarInfoText(info, refs, sig) == Render(Fields(info, refs, sig))
  {
    var f := Fields(info, refs, sig);
    var head, tail := f[..8], f[8..];
    assert f == head + tail;
    RenderAppend(head, tail);
    RenderLines(head);
    if info.deriver.Some? {
      assert tail == [f[8]] + [f[9]];
      RenderAppend([f[8]], [f[9]]);
      RenderOne(f[8]);
      RenderOne(f[9]);
    } else {
      assert tail == [f[8]];
      RenderOne(f[8]);
    }
  }

  /** Eight fields rendered are their eight lines. */
  lemma {:induction false} RenderLines(h: seq<Field>)
    requires |h| == 8
    ensures Render(h)
            == Line(h[0]) + Line(h[1]) + Line(h[2]) + Line(h[3])
             + Line(h[4]) + Line(h[5]) + Line(h[6]) + Line(h[7])
  {
    assert h[7..][1..] == [];
    assert Render(h[7..]) == Line(h[7]);
    assert Render(h[6..]) == Line(h[6]) + Render(h[7..]);
    assert Render(h[5..]) == Line(h[5]) + Render(h[6..]);
    assert Render(h[4..]) == Line(h[4]) + Render(h[5..]);
    assert Render(h[3..]) == Line(h[3]) + Render(h[4..]);
    assert Render(h[2..]) == Line(h[2]) + Render(h[3..]);
    assert Render(h[1..]) == Line(h[1]) + Render(h[2..]);
  }

  /** The Deriver line is the only difference a deriver makes: removing it
      from the text written with a deriver gives the text written without
      one. */
  lemma {:induction false} DeriverLineRemoval(info: PathInfo, refs: seq<StorePath>, sig: string, deriver: StorePath)
    requires info.deriver == Some(deriver)
    ensures var without := NarInfoText(info.(deriver := None), refs, sig);
            var cut := |without| - |Line(("Sig", sig))|;
            0 <= cut
            && NarInfoText(info, refs, sig)
               == without[..cut] + Line(("Deriver", deriver.WithoutPrefix())) + without[cut..]
  {
    var without := NarInfoText(info.(deriver := None), refs, sig);
    var sigLine := Line(("Sig", sig));
    var head := without[..|without| - |sigLine|];
    assert without == head + sigLine;
    assert without[|without| - |sigLine|..] == sigLine;
  }

  /** Reads one line `key: value`: the key is the text before the first
      colon, the value what follows the colon and one space. */
  function ParseLine(line: string): (r: Option<Field>)
    ensures r.Some? ==> line == LineText(r.value) && ':' !in r.value.0
  {
    match SplitOnce(line, ':')
    case None => None
    case Some((key, rest)) =>
      match StripPrefix(rest, " ")
      case None => None
      case Some(value) => Some((key, value))
  }

  /** Reads lines one by one; one unreadable line spoils the record. */
  function ParseLines(lines: seq<string>): (r: Option<seq<Field>>)
    ensures r.Some? ==> |r.value| == |lines|
  {
    if |lines| == 0 then Some([])
    else
      match ParseLine(lines[0])
      case None => None
      case Some(f) =>
        match ParseLines(lines[1..])
        case None => None
        case Some(fs) => Some([f] + fs)
  }

  /** Reads a record: lines of `key: value`, each ending with a newline. */
  function ParseRecord(text: string): (r: Option<seq<Field>>)
  {
    var lines := Split(text, '\n');
    if lines[|lines| - 1] != "" then None else ParseLines(lines[..|lines| - 1])
  }

  /** A field a reader can get back from its line: the key holds no colon
      and no newline, the value no newline. */
  predicate WellFormedField(f: Field)
  {
    ':' !in f.0 && '\n' !in f.0 && '\n' !in f.1
  }

  /** The lines of a record, without their newlines. */
  function LineTexts(fields: seq<Field>): (lines: seq<string>)
    ensures |lines| == |fields|
    ensures forall k :: 0 <= k < |fields| ==> lines[k] == LineText(fields[k])
  {
    if |fields| == 0 then [] else [LineText(fields[0])] + LineTexts(fields[1..])
  }

  /** A record's text is its lines joined by newlines, with a final
      newline. */
  lemma {:induction false} RenderJoin(fields: seq<Field>)
    ensures Render(fields) == Join("\n", LineTexts(fields) + [""])
    decreases |fields|
  {
    if |fields| > 0 {
      var lines := LineTexts(fields) + [""];
      assert lines[1..] == LineTexts(fields[1..]) + [""];
      RenderJoin(fields[1..]);
    }
  }

  lemma {:induction false} ParseLineText(f: Field)
    requires WellFormedField(f)
    ensures ParseLine(LineText(f)) == Some(f)
    ensures '\n' !in LineText(f)
  {
    assert LineText(f) == f.0 + [':'] + (" " + f.1);
    SplitOnceAt(f.0, ':', " " + f.1);
    assert StripPrefix(" " + f.1, " ") == Some(f.1);
  }

  lemma {:induction false} ParseLineTexts(fields: seq<Field>)
    requires forall k :: 0 <= k < |fields| ==> WellFormedField(fields[k])
    ensures ParseLines(LineTexts(fields)) == Some(fields)
    decreases |fields|
  {
    if |fields| > 0 {
      ParseLineText(fields[0]);
      assert LineTexts(fields)[1..] == LineTexts(fields[1..]);
      ParseLineTexts(fields[1..]);
      assert fields == [fields[0]] + fields[1..];
    }
  }

  /** Reading a rendered record gives back its fields, in order. */
  lemma {:induction false} ParseRender(fields: seq<Field>)
    requires forall k :: 0 <= k < |fields| ==> WellFormedField(fields[k])
    ensures ParseRecord(Render(fields)) == Some(fields)
  {
    var lines := LineTexts(fields) + [""];
    forall k | 0 <= k < |lines|
      ensures '\n' !in lines[k]
    {
      if k < |fields| {
        ParseLineText(fields[k]);
      }
    }
    RenderJoin(fields);
    assert "\n" == ['\n'];
    SplitJoin(lines, '\n');
    assert lines[..|lines| - 1] == LineTexts(fields);
    ParseLineTexts(fields);
  }

  /** None of the values written into a narinfo holds a newline. */
  predicate SingleLineValues(info: PathInfo, refs: seq<StorePath>, sig: string)
  {
    '\n' !in info.path.rel && '\n' !in info.narHash && '\n' !in sig
    && (forall k :: 0 <= k < |refs| ==> '\n' !in refs[k].rel)
    && (info.deriver.Some? ==> '\n' !in info.deriver.value.rel)
  }

  /** Every field of a record is readable back when no value holds a
      newline. */
  lemma {:induction false} RecordWellFormed(path: string, url: string, hash: string, size: string, references: string,
                         deriver: Option<string>, sig: string)
    requires '\n' !in path && '\n' !in url && '\n' !in hash && '\n' !in size && '\n' !in references
    requires '\n' !in sig && (deriver.Some? ==> '\n' !in deriver.value)
    ensures var r := Record(path, url, hash, size, references, deriver, sig);
            forall k :: 0 <= k < |r| ==> WellFormedField(r[k])
  {
    var r := Record(path, url, hash, size, references, deriver, sig);
    forall k | 0 <= k < |r|
      ensures WellFormedField(r[k])
    {
      if k == 0 {
      } else if k == 1 {
      } else if k == 2 {
      } else if k == 3 {
      } else if k == 4 {
      } else if k == 5 {
      } else if k == 6 {
      } else if k == 7 {
      } else if k == 8 {
      } else {
      }
    }
  }

  lemma {:induction false} FieldsWellFormed(info: PathInfo, refs: seq<StorePath>, sig: string)
    requires SingleLineValues(info, refs, sig)
    ensures var f := Fields(info, refs, sig);
            forall k :: 0 <= k < |f| ==> WellFormedField(f[k])
  {
    AbsoluteAvoids(info.path, '\n');
    DecimalAvoids(info.narSize, '\n');
    JoinAvoids(" ", RelativePaths(refs), '\n');
    RecordWellFormed(info.path.WithPrefix(), "nar/" + info.path.WithoutPrefix(), info.narHash, Decimal(info.narSize),
                     ReferenceList(refs), MapOption(info.deriver, (p: StorePath) => p.WithoutPrefix()), sig);
  }

  /** Reading the response gives back the record the handler meant to
      write, field by field and in order. */
  lemma {:induction false} ReadNarInfo(info: PathInfo, refs: seq<StorePath>, sig: string)
    requires SingleLineValues(info, refs, sig)
    ensures ParseRecord(NarInfoText(info, refs, sig)) == Some(Fields(info, refs, sig))
  {
    FieldsWellFormed(info, refs, sig);
    TextIsRendered(info, refs, sig);
    ParseRender(Fields(info, refs, sig));
  }

  /** What a reader of a record finds, line by line: the path; the URL;
      compression `none`; the digest under both `FileHash` and `NarHash`
      and the size under both `FileSize` and `NarSize`; the references; a
      Deriver line exactly when there is a deriver; and the signature
      last. */
  lemma {:induction false} RecordLayout(path: string, url: string, hash: string, size: string, references: string,
                     deriver: Option<string>, sig: string)
    ensures var r := Record(path, url, hash, size, references, deriver, sig);
            |r| == (if deriver.Some? then 10 else 9)
            && r[0] == ("StorePath", path) && r[1] == ("URL", url) && r[2] == ("Compression", "none")
            && r[3] == ("FileHash", hash) && r[5] == ("NarHash", hash)
            && r[4] == ("FileSize", size) && r[6] == ("NarSize", size)
            && r[7] == ("References", references)
            && (deriver.Some? ==> r[8] == ("Deriver", deriver.value))
            && r[|r| - 1] == ("Sig", sig)
  {
  }

  /** The URL a narinfo gives leads the nar route back to the store path,
      unless the path's relative part itself starts with the store
      directory. */
  lemma {:induction false} UrlLeadsToPath(info: PathInfo, refs: seq<StorePath>, sig: string)
    requires SingleLineValues(info, refs, sig)
    requires !StartsWith(info.path.rel, StoreDir)
    ensures ParseRecord(NarInfoText(info, refs, sig)).Some?
    ensures var f := ParseRecord(NarInfoText(info, refs, sig)).value;
            |f| > 1 && f[1].0 == "URL" && StartsWith(f[1].1, "nar/") && NarFilePath(f[1].1[4..]) == info.path.WithPrefix()
  {
    ReadNarInfo(info, refs, sig);
    var url := "nar/" + info.path.WithoutPrefix();
    RecordLayout(info.path.WithPrefix(), url, info.narHash, Decimal(info.narSize),
                 ReferenceList(refs), MapOption(info.deriver, (p: StorePath) => p.WithoutPrefix()), sig);
    assert url[4..] == info.path.WithoutPrefix();
    NarFilePathInverts(info.path);
  }

  /** The References value lists the relative reference paths in the
      caller's order and number, one space apart; it is empty when there
      are none. */
  lemma {:induction false} ReferenceListSplits(refs: seq<StorePath>)
    requires forall k :: 0 <= k < |refs| ==> ' ' !in refs[k].rel
    ensures |refs| == 0 ==> ReferenceList(refs) == ""
    ensures |refs| > 0 ==> Split(ReferenceList(refs), ' ') == RelativePaths(refs)
  {
    if |refs| > 0 {
      assert " " == [' '];
      SplitJoin(RelativePaths(refs), ' ');
    }
  }

  /** The statuses the endpoint answers with when it has no record. */
  datatype Status = NotFound | InternalServerError

  /** `get_nar_info`: a failed lookup is a server error and a missing path
      is not found; a failed reference query, key load or signing is a
      server error; only when every step succeeds is the record written,
      signed with the loaded key. The two queries are separate statements
      on their own access to the catalog, so `refsCatalog` is the catalog as
      the references query finds it: it can fail when the lookup did not,
      and it can hold rows written in between. */
  function GetNarInfo(catalog: Catalog, refsCatalog: Catalog, hash: string, keyText: Option<string>, crypto: Crypto)
    : (r: Result<string, Status>)
    ensures r == Err(NotFound) <==> GetPathInfo(catalog, hash) == Ok(None)
    ensures r.Ok? <==> GetPathInfo(catalog, hash).Ok? && GetPathInfo(catalog, hash).value.Some?
                       && GetReferences(refsCatalog, GetPathInfo(catalog, hash).value.value).Ok?
                       && LoadKey(keyText, crypto).Ok?
  {
    match GetPathInfo(catalog, hash)
    case Err(_) => Err(InternalServerError)
    case Ok(None) => Err(NotFound)
    case Ok(Some(info)) =>
      match GetReferences(refsCatalog, info)
      case Err(_) => Err(InternalServerError)
      case Ok(refs) =>
        match LoadKey(keyText, crypto)
        case Err(_) => Err(InternalServerError)
        case Ok(key) =>
          match Sign(key, info, refs, crypto)
          case Err(_) => Err(InternalServerError)
          case Ok(signature) => Ok(NarInfoText(info, refs, signature))
  }

  /** A failed lookup (an unreadable catalog or a digest that does not
      convert), an unreadable catalog for the references query, or a key
      that does not load for a path that exists, is a server error, never a
      missing path. */
  lemma {:induction false} FailuresAreServerErrors(catalog: Catalog, refsCatalog: Catalog, hash: string,
                                                   keyText: Option<string>, crypto: Crypto)
    ensures catalog.Unavailable? ==> GetNarInfo(catalog, refsCatalog, hash, keyText, crypto) == Err(InternalServerError)
    ensures GetPathInfo(catalog, hash).Err? ==> GetNarInfo(catalog, refsCatalog, hash, keyText, crypto) == Err(InternalServerError)
    ensures GetPathInfo(catalog, hash).Ok? && GetPathInfo(catalog, hash).value.Some? && refsCatalog.Unavailable?
            ==> GetNarInfo(catalog, refsCatalog, hash, keyText, crypto) == Err(InternalServerError)
    ensures GetPathInfo(catalog, hash).Ok? && GetPathInfo(catalog, hash).value.Some?
            && LoadKey(keyText, crypto).Err?
            ==> GetNarInfo(catalog, refsCatalog, hash, keyText, crypto) == Err(InternalServerError)
  {
  }

  /** A successful answer is the record text of the path found for the
      hash, with the references the second query found, and with the
      loaded key's signature as its Sig value; the path starts with the
      wanted one. */
  lemma {:induction false} AnswerIsSignedText(catalog: Catalog, refsCatalog: Catalog, hash: string,
                                              keyText: Option<string>, crypto: Crypto,
                                              info: PathInfo, refs: seq<StorePath>, key: Key)
    requires GetPathInfo(catalog, hash) == Ok(Some(info))
    requires GetReferences(refsCatalog, info) == Ok(refs)
    requires LoadKey(keyText, crypto) == Ok(key)
    ensures GetNarInfo(catalog, refsCatalog, hash, keyText, crypto)
            == Ok(NarInfoText(info, refs, Sign(key, info, refs, crypto).value))
    ensures StartsWith(info.path.WithPrefix(), WantedPath(hash))
  {
  }

  /** Reading a successful answer gives back the fields of the signed
      record, the Sig field last, when no value holds a newline. */
  lemma {:induction false} AnswerIsSignedRecord(catalog: Catalog, refsCatalog: Catalog, hash: string,
                                                keyText: Option<string>, crypto: Crypto,
                                                info: PathInfo, refs: seq<StorePath>, key: Key)
    requires GetPathInfo(catalog, hash) == Ok(Some(info))
    requires GetReferences(refsCatalog, info) == Ok(refs)
    requires LoadKey(keyText, crypto) == Ok(key)
    requires SingleLineValues(info, refs, Sign(key, info, refs, crypto).value)
    ensures GetNarInfo(catalog, refsCatalog, hash, keyText, crypto).Ok?
            && ParseRecord(GetNarInfo(catalog, refsCatalog, hash, keyText, crypto).value)
               == Some(Fields(info, refs, Sign(key, info, refs, crypto).value))
  {
    AnswerIsSignedText(catalog, refsCatalog, hash, keyText, crypto, info, refs, key);
    ReadNarInfo(info, refs, Sign(key, info, refs, crypto).value);
  }
}
