/** The narinfo signature: loading the `name:base64-key` secret key text, the
    fingerprint that is signed, and the `name:signature` text that results.
    Base64 and Ed25519 are library code; they enter as the functions of a
    `Crypto` value. */
module Signature {
  import opened Results
  import opened Text
  import opened StorePaths
  import opened Database

  /** An Ed25519 key pair, as `Keypair::from_bytes` accepted it. */
  datatype Keypair = Keypair(bytes: seq<bv8>)

  /** The library functions the signing step calls: base64 decoding (which
      may reject its input), `Keypair::from_bytes` (which may reject the
      bytes), Ed25519 signing of the UTF-8 bytes of a text, and base64
      encoding. */
  datatype Crypto = Crypto(
    base64Decode: string -> Option<seq<bv8>>,
    keypairFromBytes: seq<bv8> -> Option<Keypair>,
    sign: (Keypair, string) -> seq<bv8>,
    base64Encode: seq<bv8> -> string)

  /** A named signing key. */
  datatype Key = Key(name: string, key: Keypair)

  /** Why a key does not load: the key file is not named or not readable,
      or its text is not `name:base64-key` with a valid key. */
  datatype KeyError = KeySourceUnavailable | KeyFormatError

  /** `Key::load`, given the key file's text (`None` when the variable
      naming the file is unset or the file cannot be read). The text is cut
      at its first `:`: the name is what precedes it, the encoded key all
      that follows, colons included. */
  function LoadKey(keyText: Option<string>, crypto: Crypto): (r: Result<Key, KeyError>)
    ensures keyText.None? <==> r == Err(KeySourceUnavailable)
    ensures keyText.Some? && ':' !in keyText.value ==> r == Err(KeyFormatError)
    ensures r.Ok? ==> ':' !in r.value.name && StartsWith(keyText.value, r.value.name + ":")
    ensures r.Ok? ==>
              var payload := keyText.value[|r.value.name| + 1..];
              crypto.base64Decode(payload).Some?
              && crypto.keypairFromBytes(crypto.base64Decode(payload).value) == Some(r.value.key)
  {
    match keyText
    case None => Err(KeySourceUnavailable)
    case Some(text) =>
      match SplitOnce(text, ':')
      case None => Err(KeyFormatError)
      case Some((name, encoded)) =>
        match crypto.base64Decode(encoded)
        case None => Err(KeyFormatError)
        case Some(bytes) =>
          match crypto.keypairFromBytes(bytes)
          case None => Err(KeyFormatError)
          case Some(key) => Ok(Key(name, key))
  }

  /** A key text `name:payload` with a colon-free name loads exactly when
      the payload decodes to a key pair, and then carries that name; the
      payload may itself contain colons. */
  lemma {:induction false} LoadKeySplitsAtFirstColon(name: string, payload: string, crypto: Crypto)
    requires ':' !in name
    ensures var r := LoadKey(Some(name + ":" + payload), crypto);
            r.Ok? <==> (crypto.base64Decode(payload).Some?
                        && crypto.keypairFromBytes(crypto.base64Decode(payload).value).Some?)
    ensures var r := LoadKey(Some(name + ":" + payload), crypto);
            r.Ok? ==> r.value.name == name
                      && r.value.key == crypto.keypairFromBytes(crypto.base64Decode(payload).value).value
    ensures var r := LoadKey(Some(name + ":" + payload), crypto);
            r.Err? ==> r.error == KeyFormatError
  {
    SplitOnceAt(name, ':', payload);
  }

  /** The absolute paths of the references, in order. */
  function AbsolutePaths(refs: seq<StorePath>): (paths: seq<string>)
    ensures |paths| == |refs|
    ensures forall k :: 0 <= k < |refs| ==> paths[k] == refs[k].WithPrefix()
  {
    if |refs| == 0 then [] else [refs[0].WithPrefix()] + AbsolutePaths(refs[1..])
  }

  /** The text that is signed: version `1`, the absolute path, the digest,
      the size in decimal and the absolute references joined by commas,
      separated by semicolons. */
  function Fingerprint(info: PathInfo, refs: seq<StorePath>): (fp: string)
    ensures StartsWith(fp, "1;" + info.path.WithPrefix() + ";")
  {
    "1;" + info.path.WithPrefix() + ";" + info.narHash + ";" + Decimal(info.narSize) + ";"
    + Join(",", AbsolutePaths(refs))
  }

  /** The separators the narinfo texts use, none of which occurs in the
      store directory. */
  predicate IsSeparator(c: char)
  {
    c == ';' || c == ',' || c == ' ' || c == '\n' || c == ':'
  }

  lemma {:induction false} StoreDirAvoids(c: char)
    requires IsSeparator(c)
    ensures c !in StoreDir
  {
    assert StoreDir == ['/', 'n', 'i', 'x', '/', 's', 't', 'o', 'r', 'e', '/'];
  }

  /** A store path whose relative part avoids a separator avoids it
      entirely. */
  lemma {:induction false} AbsoluteAvoids(p: StorePath, c: char)
    requires IsSeparator(c) && c !in p.rel
    ensures c !in p.WithPrefix()
  {
    StoreDirAvoids(c);
    assert p.WithPrefix() == StoreDir + p.rel;
  }

  lemma {:induction false} AbsolutePathsAvoid(refs: seq<StorePath>, c: char)
    requires IsSeparator(c)
    requires forall k :: 0 <= k < |refs| ==> c !in refs[k].rel
    ensures forall k :: 0 <= k < |refs| ==> c !in AbsolutePaths(refs)[k]
  {
    forall k | 0 <= k < |refs|
      ensures c !in AbsolutePaths(refs)[k]
    {
      AbsoluteAvoids(refs[k], c);
    }
  }

  /** The five fingerprint fields, in order. */
  function FingerprintFields(info: PathInfo, refs: seq<StorePath>): seq<string>
  {
    ["1", info.path.WithPrefix(), info.narHash, Decimal(info.narSize), Join(",", AbsolutePaths(refs))]
  }

  /** The fingerprint is its fields joined by semicolons. */
  lemma {:induction false} FingerprintJoinsFields(info: PathInfo, refs: seq<StorePath>)
    ensures Fingerprint(info, refs) == Join(";", FingerprintFields(info, refs))
  {
    Join5(";", "1", info.path.WithPrefix(), info.narHash, Decimal(info.narSize), Join(",", AbsolutePaths(refs)));
    assert "1" + ";" == "1;";
  }

  /** Five texts joined: each followed by the separator, the last one
      without. */
  lemma {:induction false} Join5(sep: string, a: string, b: string, c: string, d: string, e: string)
    ensures Join(sep, [a, b, c, d, e]) == a + sep + b + sep + c + sep + d + sep + e
  {
    var xs := [a, b, c, d, e];
    assert xs[1..] == [b, c, d, e] && xs[1..][1..] == [c, d, e];
    assert xs[1..][1..][1..] == [d, e] && xs[1..][1..][1..][1..] == [e];
    assert Join(sep, [d, e]) == d + sep + e;
    assert Join(sep, [c, d, e]) == c + sep + (d + sep + e);
    assert Join(sep, [b, c, d, e]) == b + sep + (c + sep + (d + sep + e));
  }

  /** A decimal number contains no separator. */
  lemma {:induction false} DecimalAvoids(n: int, c: char)
    requires IsSeparator(c)
    ensures c !in Decimal(n)
  {
    var s := Decimal(n);
    assert forall k :: 0 <= k < |s| ==> s[k] == '-' || IsDigit(s[k]);
  }

  /** Cutting the fingerprint at its semicolons gives back the version, the
      path, the digest, the size and the reference list, provided none of
      them contains a semicolon. */
  lemma {:induction false} FingerprintSplits(info: PathInfo, refs: seq<StorePath>)
    requires ';' !in info.path.rel && ';' !in info.narHash
    requires forall k :: 0 <= k < |refs| ==> ';' !in refs[k].rel
    ensures Split(Fingerprint(info, refs), ';') == FingerprintFields(info, refs)
  {
    var fields := FingerprintFields(info, refs);
    AbsoluteAvoids(info.path, ';');
    AbsolutePathsAvoid(refs, ';');
    JoinAvoids(",", AbsolutePaths(refs), ';');
    DecimalAvoids(info.narSize, ';');
    FingerprintJoinsFields(info, refs);
    SplitJoin(fields, ';');
  }

  /** The reference list of the fingerprint gives back the absolute
      reference paths in the caller's order and number: they are neither
      sorted nor deduplicated. */
  lemma {:induction false} FingerprintReferences(refs: seq<StorePath>)
    requires |refs| >= 1
    requires forall k :: 0 <= k < |refs| ==> ',' !in refs[k].rel
    ensures Split(Join(",", AbsolutePaths(refs)), ',') == AbsolutePaths(refs)
  {
    var paths := AbsolutePaths(refs);
    AbsolutePathsAvoid(refs, ',');
    assert [','] == ",";
    SplitJoin(paths, ',');
  }

  /** With no references the reference field is present but empty: the
      fingerprint ends with the semicolon that opens it. */
  lemma {:induction false} FingerprintWithoutReferences(info: PathInfo)
    ensures EndsWith(Fingerprint(info, []), ";")
    ensures Fingerprint(info, []) == "1;" + info.path.WithPrefix() + ";" + info.narHash + ";" + Decimal(info.narSize) + ";"
  {
    assert AbsolutePaths([]) == [];
  }

  /** `Key::sign`: the key's name, a colon, and the base64 signature of the
      fingerprint. Signing never fails. */
  function Sign(key: Key, info: PathInfo, refs: seq<StorePath>, crypto: Crypto): (r: Result<string, KeyError>)
    ensures r.Ok?
    ensures StartsWith(r.value, key.name + ":")
    ensures r.value[|key.name| + 1..] == crypto.base64Encode(crypto.sign(key.key, Fingerprint(info, refs)))
  {
    Ok(key.name + ":" + crypto.base64Encode(crypto.sign(key.key, Fingerprint(info, refs))))
  }

  /** The text before the first colon of a signature made with a loaded key
      is the key's name, which is the text before the first colon of the key
      file; what follows is the encoded signature of the fingerprint. */
  lemma {:induction false} SignatureNamesLoadedKey(keyText: string, crypto: Crypto, info: PathInfo, refs: seq<StorePath>)
    requires LoadKey(Some(keyText), crypto).Ok?
    ensures var key := LoadKey(Some(keyText), crypto).value;
            SplitOnce(Sign(key, info, refs, crypto).value, ':')
            == Some((SplitOnce(keyText, ':').value.0,
                     crypto.base64Encode(crypto.sign(key.key, Fingerprint(info, refs)))))
  {
    var key := LoadKey(Some(keyText), crypto).value;
    SplitOnceAt(key.name, ':', crypto.base64Encode(crypto.sign(key.key, Fingerprint(info, refs))));
  }
}
