/** Pipeline archives: a file is read in whatever pieces the reader hands out, and the files of an archive are
    taken only if its manifest lists them and their checksums match. */
module Archives {
  import opened Component
  import opened HexDump

  type Bytes = seq<Byte>

  // ---------------------------------------------------------------- reading a file

  datatype ReadError = Eof | Broken

  /** One answer of the underlying stream: some bytes, possibly none, and possibly an error with them. */
  datatype Piece = Piece(bytes: Bytes, error: Option<ReadError>)

  /** Everything up to the first error. A stream that has nothing more to hand out is at its end. */
  function Content(pieces: seq<Piece>): Bytes {
    if pieces == [] then []
    else if pieces[0].error.Some? then pieces[0].bytes
    else pieces[0].bytes + Content(pieces[1..])
  }

  function Ending(pieces: seq<Piece>): ReadError {
    if pieces == [] then Eof
    else if pieces[0].error.Some? then pieces[0].error.value
    else Ending(pieces[1..])
  }

  /** The error comes together with the last bytes. */
  predicate EndsAbruptly(pieces: seq<Piece>) {
    pieces != [] &&
    if pieces[0].error.Some? then pieces[0].error.value == Broken && pieces[0].bytes != []
    else EndsAbruptly(pieces[1..])
  }

  lemma {:induction false} AbruptEnding(pieces: seq<Piece>)
    ensures EndsAbruptly(pieces) ==> Content(pieces) != [] && Ending(pieces) == Broken
  {
    if pieces != [] {
      AbruptEnding(pieces[1..]);
    }
  }

  /** What is left of a stream whose first bytes were handed out without an error. */
  predicate Continues(pieces: seq<Piece>, rest: seq<Piece>, bytes: Bytes) {
    && bytes + Content(rest) == Content(pieces) && Ending(rest) == Ending(pieces)
    && EndsAbruptly(rest) == EndsAbruptly(pieces)
  }

  /** The bytes that were left of a stream, handed out with an error. */
  predicate Ends(pieces: seq<Piece>, bytes: Bytes, error: ReadError) {
    && bytes == Content(pieces) && error == Ending(pieces) && EndsAbruptly(pieces) == (error == Broken && bytes != [])
  }

  class Reader {
    var pieces: seq<Piece>

    constructor (pieces: seq<Piece>)
      ensures this.pieces == pieces
    {
      this.pieces := pieces;
    }

    /** Fills the buffer from an index on with one piece, or with as much of it as there is room for. */
    method Read(b: array<Byte>, from: nat) returns (n: nat, error: Option<ReadError>, ghost bytes: Bytes)
      requires from < b.Length
      modifies this, b
      ensures from + n <= b.Length && |bytes| == n && b[..from + n] == old(b[..from]) + bytes
      ensures error.None? ==> Continues(old(pieces), pieces, bytes)
      ensures error.None? ==> |pieces| < |old(pieces)| || (|pieces| == |old(pieces)| && from + n == b.Length)
      ensures error.Some? ==> Ends(old(pieces), bytes, error.value)
    {
      if pieces == [] {
        return 0, Some(Eof), [];
      }
      var piece := pieces[0];
      n := if |piece.bytes| <= b.Length - from then |piece.bytes| else b.Length - from;
      for i := 0 to n
        invariant b[..from + i] == old(b[..from]) + piece.bytes[..i] && pieces == old(pieces)
      {
        b[from + i] := piece.bytes[i];
      }
      bytes := piece.bytes[..n];
      if n == |piece.bytes| {
        pieces, error := pieces[1..], piece.error;
      } else {
        error := None;
        assert piece.bytes[..n] + piece.bytes[n..] == piece.bytes;
        pieces := [piece.(bytes := piece.bytes[n..])] + pieces[1..];
      }
    }
  }

  datatype ReadResult = Complete(bytes: Bytes) | TooShort | Failed

  /** A file of known size: its bytes if the stream has that many, whatever the pieces. */
  function FileOf(size: nat, pieces: seq<Piece>): ReadResult {
    var content := Content(pieces);
    if size == 0 then Complete([])
    else if size < |content| || (size == |content| && !EndsAbruptly(pieces)) then Complete(content[..size])
    else if Ending(pieces) == Eof then TooShort
    else Failed
  }

  lemma FileRead(size: nat, pieces: seq<Piece>, rest: seq<Piece>, b: Bytes)
    requires Continues(pieces, rest, b) && |b| == size
    ensures FileOf(size, pieces) == Complete(b)
  {
    AbruptEnding(rest);
  }

  /** An error after some bytes, with which the stream ends. */
  lemma FileEnded(size: nat, pieces: seq<Piece>, rest: seq<Piece>, before: Bytes, last: Bytes, error: ReadError)
    requires Continues(pieces, rest, before) && Ends(rest, last, error) && |before| < size && |before + last| <= size
    ensures FileOf(size, pieces) ==
      if error == Broken then Failed else if |before + last| < size then TooShort else Complete(before + last)
  {
    AbruptEnding(pieces);
  }

  method ReadBytesFromReader(size: nat, r: Reader) returns (result: ReadResult)
    modifies r
    ensures result == FileOf(size, old(r.pieces))
  {
    var b := new Byte[size](_ => Byte(0, 0));
    var bytesLeft := size;
    ghost var read: Bytes := [];
    while bytesLeft > 0
      invariant 0 <= bytesLeft <= size && fresh(b)
      invariant read == b[..size - bytesLeft] && Continues(old(r.pieces), r.pieces, read)
      decreases |r.pieces|, bytesLeft
    {
      ghost var pieces := r.pieces;
      var i, err, bytes := r.Read(b, size - bytesLeft);
      bytesLeft := bytesLeft - i;
      if err.Some? {
        FileEnded(size, old(r.pieces), pieces, read, bytes, err.value);
        if err.value == Eof {
          if bytesLeft != 0 {
            return TooShort;
          }
          assert b[..] == b[..size];
          return Complete(b[..]);
        }
        return Failed;
      }
      Continued(old(r.pieces), pieces, r.pieces, read, bytes);
      read := read + bytes;
    }
    assert b[..] == b[..size];
    FileRead(size, old(r.pieces), r.pieces, read);
    return Complete(b[..]);
  }

  lemma Continued(a: seq<Piece>, b: seq<Piece>, c: seq<Piece>, first: Bytes, second: Bytes)
    requires Continues(a, b, first) && Continues(b, c, second)
    ensures Continues(a, c, first + second)
  {
  }

  /** Streams that end regularly after the same bytes give the same file, however they hand them out: the first
      `size` bytes, if there are that many. */
  lemma PiecesDoNotMatter(size: nat, a: seq<Piece>, b: seq<Piece>)
    requires Content(a) == Content(b) && Ending(a) == Ending(b) == Eof
    ensures FileOf(size, a) == FileOf(size, b)
    ensures FileOf(size, a) == if size <= |Content(a)| then Complete(Content(a)[..size]) else TooShort
  {
    AbruptEnding(a);
    AbruptEnding(b);
  }

  // ---------------------------------------------------------------- checking an archive

  /** An entry of a tar file: the pieces its content comes in are the same whenever the archive is read. */
  datatype Entry = Entry(name: string, size: nat, pieces: seq<Piece>)

  /** An archive that can be opened: its entries up to its end, or up to the first header that cannot be read. */
  datatype Tar = Tar(entries: seq<Entry>, intact: bool)

  datatype StackContents = StackContents(file: string, sha256: string)

  datatype Document = Document(name: string, group: string, version: string, kind: string, yaml: string)

  datatype StackAsset = StackAsset(document: Document, sha256: string)

  /** Decompression, YAML, checksums and the directive processor. */
  datatype Tools = Tools(
    untar: Bytes -> Option<Tar>,
    unmarshal: (seq<StackContents>, Bytes) -> Option<seq<StackContents>>,
    sum256: Bytes -> Bytes,
    decodeHex: string -> Option<Bytes>,
    encodeHex: Bytes -> string,
    render: (Bytes, string) -> Option<seq<Document>>)

  function TrimDot(name: string): string {
    if |name| >= 2 && name[0] == '.' && name[1] == '/' then name[2..] else name
  }

  predicate IsManifest(e: Entry) {
    TrimDot(e.name) == "manifest.yaml"
  }

  predicate HasSuffix(s: string, suffix: string) {
    |suffix| <= |s| && s[|s| - |suffix|..] == suffix
  }

  predicate IsAsset(e: Entry) {
    !IsManifest(e) && HasSuffix(e.name, ".yaml")
  }

  /** A decoded checksum copied into 32 bytes: cut off behind them, and zeroes where it is shorter. */
  function Copy32(decoded: Bytes): (sum: Bytes)
    ensures |sum| == 32
  {
    if |decoded| >= 32 then decoded[..32] else decoded + seq(32 - |decoded|, i => Byte(0, 0))
  }

  predicate Matches(c: StackContents, b: Bytes, t: Tools) {
    c.sha256 != "" ==>
      var decoded := t.decodeHex(c.sha256); decoded.Some? && t.sum256(b) == Copy32(decoded.value)
  }

  /** What the manifests of the first entries list, each read on top of the ones before it. */
  function Listed(entries: seq<Entry>, t: Tools): Option<seq<StackContents>> {
    if entries == [] then Some([])
    else
      var e := entries[|entries| - 1];
      match Listed(entries[..|entries| - 1], t)
      case None => None
      case Some(before) =>
        if !IsManifest(e) then Some(before)
        else
          match FileOf(e.size, e.pieces)
          case Complete(b) => t.unmarshal(before, b)
          case TooShort => None
          case Failed => None
  }

  predicate HasManifest(entries: seq<Entry>) {
    exists i :: 0 <= i < |entries| && IsManifest(entries[i])
  }

  /** The checksum of the last line of the manifest for a file. */
  function LastSum(contents: seq<StackContents>, file: string): string {
    if contents == [] then ""
    else if contents[|contents| - 1].file == file then contents[|contents| - 1].sha256
    else LastSum(contents[..|contents| - 1], file)
  }

  predicate IsListed(contents: seq<StackContents>, file: string) {
    exists i :: 0 <= i < |contents| && contents[i].file == file
  }

  predicate AllMatch(contents: seq<StackContents>, file: string, b: Bytes, t: Tools) {
    forall i :: 0 <= i < |contents| && contents[i].file == file ==> Matches(contents[i], b, t)
  }

  /** An asset file that can be read, is listed, has every checksum listed for it, and can be rendered. */
  predicate Sound(e: Entry, contents: seq<StackContents>, t: Tools) {
    var file := FileOf(e.size, e.pieces);
    && file.Complete? && IsListed(contents, TrimDot(e.name)) && AllMatch(contents, TrimDot(e.name), file.bytes, t)
    && t.render(file.bytes, e.name).Some?
  }

  function Stamp(documents: seq<Document>, sum: string): (assets: seq<StackAsset>)
    ensures |assets| == |documents|
  {
    seq(|documents|, i requires 0 <= i < |documents| => StackAsset(documents[i], sum))
  }

  function AssetsOf(e: Entry, contents: seq<StackContents>, t: Tools): seq<StackAsset> {
    var file := FileOf(e.size, e.pieces);
    if IsAsset(e) && Sound(e, contents, t) then
      Stamp(t.render(file.bytes, e.name).value, LastSum(contents, TrimDot(e.name)))
    else []
  }

  /** The documents of the asset files, in the order of the archive. */
  function AllAssets(entries: seq<Entry>, contents: seq<StackContents>, t: Tools): seq<StackAsset> {
    if entries == [] then []
    else
      AllAssets(entries[..|entries| - 1], contents, t) + AssetsOf(entries[|entries| - 1], contents, t)
  }

  predicate FineEntry(e: Entry, contents: seq<StackContents>, t: Tools) {
    IsAsset(e) ==> Sound(e, contents, t)
  }

  predicate AllSound(entries: seq<Entry>, contents: seq<StackContents>, t: Tools) {
    forall i :: 0 <= i < |entries| ==> FineEntry(entries[i], contents, t)
  }

  lemma {:induction false} UnlistedLater(entries: seq<Entry>, n: nat, t: Tools)
    requires n <= |entries| && Listed(entries[..n], t).None?
    ensures Listed(entries, t).None?
  {
    if n < |entries| {
      var m := |entries| - 1;
      assert entries[..m][..n] == entries[..n];
      UnlistedLater(entries[..m], n, t);
    } else {
      assert entries[..n] == entries;
    }
  }

  /** The first pass over the entries. */
  method ReadManifest(entries: seq<Entry>, t: Tools) returns (contents: Option<seq<StackContents>>, found: bool)
    ensures contents == Listed(entries, t)
    ensures contents.Some? ==> found == HasManifest(entries)
  {
    var listed: seq<StackContents> := [];
    found := false;
    for i := 0 to |entries|
      invariant Listed(entries[..i], t) == Some(listed)
      invariant found == HasManifest(entries[..i])
    {
      var header := entries[i];
      assert entries[..i + 1][..i] == entries[..i];
      if IsManifest(header) {
        var r := new Reader(header.pieces);
        var b := ReadBytesFromReader(header.size, r);
        var unmarshalled := if b.Complete? then t.unmarshal(listed, b.bytes) else None;
        if unmarshalled.None? {
          UnlistedLater(entries, i + 1, t);
          return None, found;
        }
        listed := unmarshalled.value;
        assert IsManifest(entries[..i + 1][i]);
        found := true;
      }
      FoundStep(entries, i);
    }
    assert entries[..|entries|] == entries;
    contents := Some(listed);
  }

  lemma FoundStep(entries: seq<Entry>, i: nat)
    requires i < |entries|
    ensures HasManifest(entries[..i + 1]) <==> HasManifest(entries[..i]) || IsManifest(entries[i])
  {
    if HasManifest(entries[..i]) {
      var k :| 0 <= k < i && IsManifest(entries[..i][k]);
      assert IsManifest(entries[..i + 1][k]);
    }
    if IsManifest(entries[i]) {
      assert IsManifest(entries[..i + 1][i]);
    }
  }

  /** Looks a file up among all the lines of the manifest. */
  method Verify(contents: seq<StackContents>, file: string, b: Bytes, t: Tools) returns (ok: bool, sum: string)
    ensures ok <==> IsListed(contents, file) && AllMatch(contents, file, b, t)
    ensures ok ==> sum == LastSum(contents, file)
  {
    var match_ := false;
    sum := "";
    for i := 0 to |contents|
      invariant match_ <==> exists k :: 0 <= k < i && contents[k].file == file
      invariant forall k :: 0 <= k < i && contents[k].file == file ==> Matches(contents[k], b, t)
      invariant sum == LastSum(contents[..i], file)
    {
      var content := contents[i];
      assert contents[..i + 1][..i] == contents[..i];
      if content.file == file {
        sum := content.sha256;
        if content.sha256 != "" {
          var decoded := t.decodeHex(content.sha256);
          if decoded.None? || t.sum256(b) != Copy32(decoded.value) {
            assert !Matches(contents[i], b, t);
            return false, sum;
          }
        }
        match_ := true;
      }
    }
    assert contents[..|contents|] == contents;
    ok := match_;
  }

  /** The second pass checks one asset file. */
  method ReadAsset(e: Entry, contents: seq<StackContents>, t: Tools) returns (assets: Option<seq<StackAsset>>)
    requires IsAsset(e)
    ensures assets.Some? <==> Sound(e, contents, t)
    ensures assets.Some? ==> assets.value == AssetsOf(e, contents, t)
  {
    var r := new Reader(e.pieces);
    var b := ReadBytesFromReader(e.size, r);
    if !b.Complete? {
      return None;
    }
    var ok, sum := Verify(contents, TrimDot(e.name), b.bytes, t);
    if !ok {
      return None;
    }
    var documents := t.render(b.bytes, e.name);
    if documents.None? {
      return None;
    }
    return Some(Stamp(documents.value, sum));
  }

  lemma NextAssets(entries: seq<Entry>, i: nat, contents: seq<StackContents>, t: Tools)
    requires i < |entries|
    ensures AllAssets(entries[..i + 1], contents, t) ==
            AllAssets(entries[..i], contents, t) + AssetsOf(entries[i], contents, t)
  {
    assert entries[..i + 1][..i] == entries[..i];
  }

  lemma NextSound(entries: seq<Entry>, i: nat, contents: seq<StackContents>, t: Tools)
    requires i < |entries|
    ensures AllSound(entries[..i + 1], contents, t) <==>
      AllSound(entries[..i], contents, t) && FineEntry(entries[i], contents, t)
    ensures AllSound(entries, contents, t) ==> FineEntry(entries[i], contents, t)
  {
    if AllSound(entries[..i + 1], contents, t) {
      forall k | 0 <= k < i ensures FineEntry(entries[..i][k], contents, t) {
        assert entries[..i][k] == entries[..i + 1][k];
      }
      assert entries[..i + 1][i] == entries[i];
    }
    if AllSound(entries[..i], contents, t) && FineEntry(entries[i], contents, t) {
      var next := entries[..i + 1];
      forall k | 0 <= k < |next| ensures FineEntry(next[k], contents, t) {
        assert k < i ==> next[k] == entries[..i][k];
      }
    }
  }

  /** The second pass over the entries. */
  method ReadAssets(entries: seq<Entry>, contents: seq<StackContents>, t: Tools)
    returns (manifests: Option<seq<StackAsset>>)
    ensures manifests.Some? <==> AllSound(entries, contents, t)
    ensures manifests.Some? ==> manifests.value == AllAssets(entries, contents, t)
  {
    var result: seq<StackAsset> := [];
    for i := 0 to |entries|
      invariant AllSound(entries[..i], contents, t)
      invariant result == AllAssets(entries[..i], contents, t)
    {
      var header := entries[i];
      NextAssets(entries, i, contents, t);
      NextSound(entries, i, contents, t);
      if IsAsset(header) {
        var assets := ReadAsset(header, contents, t);
        if assets.None? {
          return None;
        }
        result := result + assets.value;
      }
    }
    assert entries[..|entries|] == entries;
    return Some(result);
  }

  predicate Decodable(archive: Bytes, t: Tools) {
    var tar := t.untar(archive);
    && tar.Some? && tar.value.intact && HasManifest(tar.value.entries)
    && var contents := Listed(tar.value.entries, t);
       contents.Some? && AllSound(tar.value.entries, contents.value, t)
  }

  function Decoded(archive: Bytes, t: Tools): seq<StackAsset>
    requires Decodable(archive, t)
  {
    var entries := t.untar(archive).value.entries;
    AllAssets(entries, Listed(entries, t).value, t)
  }

  /** An archive is taken exactly when all its asset files are sound, and then gives all their documents. */
  method DecodeManifests(archive: Bytes, t: Tools) returns (manifests: Option<seq<StackAsset>>)
    ensures manifests.Some? <==> Decodable(archive, t)
    ensures manifests.Some? ==> manifests.value == Decoded(archive, t)
  {
    var tar := t.untar(archive);
    if tar.None? {
      return None;
    }
    var entries := tar.value.entries;
    var contents, found := ReadManifest(entries, t);
    if contents.None? || !tar.value.intact || !found {
      return None;
    }
    manifests := ReadAssets(entries, contents.value, t);
  }

  // ---------------------------------------------------------------- downloading a pipeline archive

  datatype FileType = TarGz | Yaml | Other

  function FileTypeOf(fileName: string): FileType {
    if HasSuffix(fileName, ".tar.gz") || HasSuffix(fileName, ".tgz") then TarGz
    else if HasSuffix(fileName, ".yaml") || HasSuffix(fileName, ".yml") then Yaml
    else Other
  }

  function TypeOf(p: PipelineStatus, path: string): FileType {
    FileTypeOf(if p.gitRelease.IsUsable() then p.gitRelease.assetName else path)
  }

  /** The path of a URL, if it parses. */
  method GetPipelineFileType(p: PipelineStatus, path: string -> Option<string>) returns (fileType: Option<FileType>)
    ensures fileType == if path(p.url).None? then None else Some(TypeOf(p, path(p.url).value))
  {
    var parsed := path(p.url);
    if parsed.None? {
      return None;
    }
    var fileName := parsed.value;
    if p.gitRelease.IsUsable() {
      fileName := p.gitRelease.assetName;
    }
    fileType := Some(FileTypeOf(fileName));
  }

  /** Whether a downloaded file has the digest of the pipeline. */
  predicate HasDigest(b: Bytes, digest: string, t: Tools) {
    var decoded := t.decodeHex(digest); decoded.Some? && t.sum256(b) == Copy32(decoded.value)
  }

  predicate Usable(p: PipelineStatus, b: Bytes, path: string, t: Tools) {
    match TypeOf(p, path)
    case TarGz => HasDigest(b, p.digest, t) && Decodable(b, t)
    case Yaml => t.decodeHex(p.digest).Some? && t.render(b, p.name).Some?
    case Other => false
  }

  /** An archive must have the digest the pipeline names. A bare YAML file need not: its documents are stamped
      with the checksum it has. */
  method GetManifests(p: PipelineStatus, download: (string, GitRelease) -> Option<Bytes>,
                      path: string -> Option<string>, t: Tools)
    returns (manifests: Option<seq<StackAsset>>)
    ensures var b := download(p.url, p.gitRelease);
      manifests.Some? <==> b.Some? && path(p.url).Some? && Usable(p, b.value, path(p.url).value, t)
    ensures manifests.Some? ==>
      var b := download(p.url, p.gitRelease).value;
      manifests.value == if TypeOf(p, path(p.url).value) == TarGz then Decoded(b, t)
                         else Stamp(t.render(b, p.name).value, t.encodeHex(t.sum256(b)))
  {
    var downloaded := download(p.url, p.gitRelease);
    if downloaded.None? {
      return None;
    }
    var b := downloaded.value;
    var decoded := t.decodeHex(p.digest);
    if decoded.None? {
      return None;
    }
    var fileType := GetPipelineFileType(p, path);
    if fileType.None? {
      return None;
    }
    match fileType.value {
      case TarGz =>
        if t.sum256(b) != Copy32(decoded.value) {
          return None;
        }
        manifests := DecodeManifests(b, t);
      case Yaml =>
        var documents := t.render(b, p.name);
        if documents.None? {
          return None;
        }
        manifests := Some(Stamp(documents.value, t.encodeHex(t.sum256(b))));
      case Other =>
        manifests := None;
    }
  }

  // ---------------------------------------------------------------- names, types and checksums in full

  /** The manifest of an archive is the file of that name, with or without a leading "./". */
  lemma ManifestNames(e: Entry)
    ensures IsManifest(e) <==> e.name == "manifest.yaml" || e.name == "./manifest.yaml"
  {
    if |e.name| >= 2 && e.name[0] == '.' && e.name[1] == '/' {
      assert e.name == "./" + e.name[2..];
    }
    if e.name == "./manifest.yaml" {
      assert e.name[2..] == "manifest.yaml";
    }
  }

  predicate EndsIn(s: string, suffix: string) {
    |suffix| <= |s| && forall i :: 0 <= i < |suffix| ==> s[|s| - |suffix| + i] == suffix[i]
  }

  lemma EndsInSuffix(s: string, suffix: string)
    ensures HasSuffix(s, suffix) <==> EndsIn(s, suffix)
  {
    if HasSuffix(s, suffix) {
      var tail := s[|s| - |suffix|..];
      assert forall i :: 0 <= i < |tail| ==> tail[i] == suffix[i];
    }
    if EndsIn(s, suffix) {
      assert s[|s| - |suffix|..] == suffix;
    }
  }

  /** The asset files are all others whose name ends in ".yaml". */
  lemma AssetNames(e: Entry)
    ensures IsAsset(e) <==> e.name != "manifest.yaml" && e.name != "./manifest.yaml" && EndsIn(e.name, ".yaml")
  {
    ManifestNames(e);
    EndsInSuffix(e.name, ".yaml");
  }

  /** The name that tells the type: of the release asset, if the release has all its parts, or else of the URL path. */
  predicate NamedBy(p: PipelineStatus, path: string, name: string) {
    var g := p.gitRelease;
    if g.hostname != "" && g.organization != "" && g.project != "" && g.release != "" && g.assetName != ""
    then name == g.assetName else name == path
  }

  lemma TypesExactly(p: PipelineStatus, path: string, name: string)
    requires NamedBy(p, path, name)
    ensures TypeOf(p, path) == TarGz <==> EndsIn(name, ".tar.gz") || EndsIn(name, ".tgz")
    ensures TypeOf(p, path) == Yaml <==>
      !EndsIn(name, ".tar.gz") && !EndsIn(name, ".tgz") && (EndsIn(name, ".yaml") || EndsIn(name, ".yml"))
  {
    EndsInSuffix(name, ".tar.gz");
    EndsInSuffix(name, ".tgz");
    EndsInSuffix(name, ".yaml");
    EndsInSuffix(name, ".yml");
  }

  /** The first 32 bytes of a decoded checksum, with zeroes where it is shorter. */
  lemma CopiedExactly(decoded: Bytes, sum: Bytes)
    ensures sum == Copy32(decoded) <==>
      |sum| == 32 && forall i :: 0 <= i < 32 ==> sum[i] == if i < |decoded| then decoded[i] else Byte(0, 0)
  {}

  /** The file has the checksum that is written in hexadecimal. */
  predicate Bears(b: Bytes, written: string, t: Tools) {
    match t.decodeHex(written)
    case None => false
    case Some(decoded) =>
      && |t.sum256(b)| == 32
      && forall i :: 0 <= i < 32 ==> t.sum256(b)[i] == if i < |decoded| then decoded[i] else Byte(0, 0)
  }

  lemma BearsExactly(b: Bytes, written: string, t: Tools)
    ensures HasDigest(b, written, t) <==> Bears(b, written, t)
  {
    if t.decodeHex(written).Some? {
      CopiedExactly(t.decodeHex(written).value, t.sum256(b));
    }
  }

  /** What a download must be for its manifests to be taken: an archive has to bear the digest of the pipeline and to
      decode; a YAML file only has to be rendered, whatever its digest, as long as the one named is hexadecimal. */
  lemma UsableExactly(p: PipelineStatus, b: Bytes, path: string, t: Tools, name: string)
    requires NamedBy(p, path, name)
    ensures Usable(p, b, path, t) <==>
      if EndsIn(name, ".tar.gz") || EndsIn(name, ".tgz") then Bears(b, p.digest, t) && Decodable(b, t)
      else (EndsIn(name, ".yaml") || EndsIn(name, ".yml")) && t.decodeHex(p.digest).Some? && t.render(b, p.name).Some?
  {
    TypesExactly(p, path, name);
    BearsExactly(b, p.digest, t);
  }

  predicate NamesManifest(name: string) {
    name == "manifest.yaml" || name == "./manifest.yaml"
  }

  /** An archive is taken exactly if it can be read to its end, holds a manifest, every manifest can be read, and each
      of its other YAML files is accepted. */
  lemma DecodableExactly(archive: Bytes, t: Tools)
    ensures Decodable(archive, t) <==>
      && t.untar(archive).Some? && t.untar(archive).value.intact
      && var entries := t.untar(archive).value.entries;
         && (exists i :: 0 <= i < |entries| && NamesManifest(entries[i].name))
         && Listed(entries, t).Some?
         && forall i :: 0 <= i < |entries| && !NamesManifest(entries[i].name) && EndsIn(entries[i].name, ".yaml") ==>
              Sound(entries[i], Listed(entries, t).value, t)
  {
    if t.untar(archive).Some? {
      var entries := t.untar(archive).value.entries;
      forall i | 0 <= i < |entries|
        ensures IsManifest(entries[i]) <==> NamesManifest(entries[i].name)
        ensures IsAsset(entries[i]) <==> !NamesManifest(entries[i].name) && EndsIn(entries[i].name, ".yaml")
      {
        ManifestNames(entries[i]);
        AssetNames(entries[i]);
      }
      if Listed(entries, t).Some? && AllSound(entries, Listed(entries, t).value, t) {
        forall i | 0 <= i < |entries| && IsAsset(entries[i]) ensures Sound(entries[i], Listed(entries, t).value, t) {
          assert FineEntry(entries[i], Listed(entries, t).value, t);
        }
      }
    }
  }

  /** Every manifest is read on top of the lines of those before it; other files add no lines. */
  lemma ListedNext(entries: seq<Entry>, e: Entry, t: Tools)
    ensures Listed([], t) == Some([])
    ensures Listed(entries + [e], t) ==
      match Listed(entries, t)
      case None => None
      case Some(before) =>
        if !NamesManifest(e.name) then Some(before)
        else
          match FileOf(e.size, e.pieces)
          case Complete(b) => t.unmarshal(before, b)
          case _ => None
  {
    ManifestNames(e);
    assert (entries + [e])[..|entries|] == entries;
  }

  /** The name under which the manifest lists a file. */
  predicate ListedName(name: string, file: string) {
    if |name| >= 2 && name[..2] == "./" then name == "./" + file else name == file
  }

  /** What it takes for an asset file to be accepted: it can be read, some line of the manifest is about it, and every
      line about it either names no checksum or the one the file bears. */
  lemma SoundExactly(e: Entry, contents: seq<StackContents>, t: Tools, file: string)
    requires ListedName(e.name, file)
    ensures Sound(e, contents, t) <==>
      && FileOf(e.size, e.pieces).Complete? && t.render(FileOf(e.size, e.pieces).bytes, e.name).Some?
      && (exists i :: 0 <= i < |contents| && contents[i].file == file)
      && (forall i :: 0 <= i < |contents| && contents[i].file == file && contents[i].sha256 != "" ==>
            Bears(FileOf(e.size, e.pieces).bytes, contents[i].sha256, t))
  {
    assert TrimDot(e.name) == file;
    if FileOf(e.size, e.pieces).Complete? {
      forall i | 0 <= i < |contents| && contents[i].sha256 != ""
        ensures Matches(contents[i], FileOf(e.size, e.pieces).bytes, t) <==>
          Bears(FileOf(e.size, e.pieces).bytes, contents[i].sha256, t)
      {
        BearsExactly(FileOf(e.size, e.pieces).bytes, contents[i].sha256, t);
      }
    }
  }

  /** The checksum of the last line about a file. */
  lemma {:induction false} LastSumExactly(contents: seq<StackContents>, file: string, i: nat)
    requires i < |contents| && contents[i].file == file
    requires forall j :: i < j < |contents| ==> contents[j].file != file
    ensures LastSum(contents, file) == contents[i].sha256
  {
    var n := |contents| - 1;
    if i < n {
      LastSumExactly(contents[..n], file, i);
    }
  }

  /** The documents of the accepted files one after the other, each with the checksum of its file. */
  lemma AssetsNext(entries: seq<Entry>, e: Entry, contents: seq<StackContents>, t: Tools)
    ensures AllAssets([], contents, t) == []
    ensures AllAssets(entries + [e], contents, t) == AllAssets(entries, contents, t) +
      if IsAsset(e) && Sound(e, contents, t) then
        var documents := t.render(FileOf(e.size, e.pieces).bytes, e.name).value;
        seq(|documents|, i requires 0 <= i < |documents| =>
          StackAsset(documents[i], LastSum(contents, TrimDot(e.name))))
      else []
  {
    assert (entries + [e])[..|entries|] == entries;
  }

  /** A stream hands out the bytes of its pieces in order up to the first error, which is how it ends. */
  lemma {:induction false} ContentInOrder(a: seq<Piece>, p: Piece, b: seq<Piece>)
    requires forall i :: 0 <= i < |a| ==> a[i].error.None?
    ensures Content(a + [p] + b) == Content(a) + p.bytes + if p.error.Some? then [] else Content(b)
    ensures Ending(a + [p] + b) == if p.error.Some? then p.error.value else Ending(b)
    ensures Content([]) == [] && Ending([]) == Eof
  {
    if a == [] {
      assert a + [p] + b == [p] + b && ([p] + b)[1..] == b;
    } else {
      ContentInOrder(a[1..], p, b);
      assert (a + [p] + b)[1..] == a[1..] + [p] + b;
    }
  }

  // ---------------------------------------------------------------- what a manifest fixes

  /** The same names in the same order. */
  predicate SameNames(a: seq<Entry>, b: seq<Entry>) {
    |a| == |b| && forall i :: 0 <= i < |a| ==> a[i].name == b[i].name
  }

  /** The last checksum listed for every asset file is not empty. */
  predicate AllSummed(entries: seq<Entry>, contents: seq<StackContents>) {
    forall i :: 0 <= i < |entries| && IsAsset(entries[i]) ==> LastSum(contents, TrimDot(entries[i].name)) != ""
  }

  /** Checksums tell the files of one entry apart from those of the other. */
  predicate TellsApart(a: Entry, b: Entry, t: Tools) {
    var x, y := FileOf(a.size, a.pieces), FileOf(b.size, b.pieces);
    x.Complete? && y.Complete? && t.sum256(x.bytes) == t.sum256(y.bytes) ==> x == y
  }

  lemma SummedFile(e: Entry, contents: seq<StackContents>, t: Tools)
    requires IsAsset(e) && Sound(e, contents, t) && LastSum(contents, TrimDot(e.name)) != ""
    ensures FileOf(e.size, e.pieces).Complete? &&
      HasDigest(FileOf(e.size, e.pieces).bytes, LastSum(contents, TrimDot(e.name)), t)
  {
    LastIsListed(contents, TrimDot(e.name));
  }

  /** Two archives with the same manifest and the same names, whose asset files all have checksums, give the same
      assets: their files may come in other pieces and with other declared sizes, but each has the checksum the
      manifest lists for it. */
  lemma {:induction false} ManifestFixesAssets(a: seq<Entry>, b: seq<Entry>, contents: seq<StackContents>, t: Tools)
    requires SameNames(a, b) && AllSummed(a, contents) && AllSound(a, contents, t) && AllSound(b, contents, t)
    requires forall i :: 0 <= i < |a| && i < |b| ==> TellsApart(a[i], b[i], t)
    ensures AllAssets(a, contents, t) == AllAssets(b, contents, t)
  {
    if a != [] {
      var n := |a| - 1;
      assert FineEntry(a[n], contents, t) && FineEntry(b[n], contents, t) && TellsApart(a[n], b[n], t);
      SoundPrefix(a, contents, t);
      SoundPrefix(b, contents, t);
      ManifestFixesAssets(a[..n], b[..n], contents, t);
      if IsAsset(a[n]) {
        SummedFile(a[n], contents, t);
        SummedFile(b[n], contents, t);
      }
    }
  }

  lemma SoundPrefix(entries: seq<Entry>, contents: seq<StackContents>, t: Tools)
    requires entries != [] && AllSound(entries, contents, t)
    ensures AllSound(entries[..|entries| - 1], contents, t)
  {
    var init := entries[..|entries| - 1];
    forall i | 0 <= i < |init| ensures FineEntry(init[i], contents, t) {
      assert FineEntry(entries[i], contents, t);
    }
  }

  /** The asset is from a listed file and bears the checksum listed last for it; if there is one, the file has it. */
  predicate ComesFrom(a: StackAsset, e: Entry, contents: seq<StackContents>, t: Tools) {
    && IsAsset(e) && a in AssetsOf(e, contents, t) && FileOf(e.size, e.pieces).Complete?
    && IsListed(contents, TrimDot(e.name)) && a.sha256 == LastSum(contents, TrimDot(e.name))
    && (a.sha256 != "" ==> HasDigest(FileOf(e.size, e.pieces).bytes, a.sha256, t))
  }

  lemma {:induction false} EveryAssetIsListed(entries: seq<Entry>, contents: seq<StackContents>, t: Tools,
                                              a: StackAsset)
    requires AllSound(entries, contents, t) && a in AllAssets(entries, contents, t)
    ensures exists i :: 0 <= i < |entries| && ComesFrom(a, entries[i], contents, t)
  {
    var n := |entries| - 1;
    if a in AssetsOf(entries[n], contents, t) {
      LastIsListed(contents, TrimDot(entries[n].name));
      assert ComesFrom(a, entries[n], contents, t);
    } else {
      EveryAssetIsListed(entries[..n], contents, t, a);
      var i :| 0 <= i < n && ComesFrom(a, entries[..n][i], contents, t);
      assert ComesFrom(a, entries[i], contents, t);
    }
  }

  lemma {:induction false} LastIsListed(contents: seq<StackContents>, file: string)
    requires IsListed(contents, file)
    ensures exists i :: 0 <= i < |contents| && contents[i].file == file && contents[i].sha256 == LastSum(contents, file)
  {
    var n := |contents| - 1;
    if contents[n].file != file {
      var k :| 0 <= k < |contents| && contents[k].file == file;
      assert contents[..n][k].file == file;
      LastIsListed(contents[..n], file);
      var i :| 0 <= i < n && contents[..n][i].file == file && contents[..n][i].sha256 == LastSum(contents[..n], file);
      assert contents[i].file == file;
    }
  }
}
