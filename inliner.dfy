/**
 * The batch loop of the image inliner (convert-images.js, `convertImages`):
 * each selected file becomes an entry `stem -> data URI` of `imagesData`,
 * and the serialised mapping is spliced into index.html.
 */
module Inliner {
  import opened Wrappers
  import opened Text
  import opened Base64
  import opened ImageFiles
  import opened Compression
  import opened HtmlSplice

  // ---------------------------------------------------------------------------
  // Data URIs

  const DataUriPrefix: string := "data:image/jpeg;base64,"

  /** The value stored for a file whose final bytes are `bytes`. */
  function DataUri(bytes: Bytes): (r: string)
    ensures |r| == |DataUriPrefix| + (|bytes| + 2) / 3 * 4
  {
    DataUriPrefix + Encode(bytes)
  }

  /** Reading a value back: the bytes whose data URI it is. */
  function ParseDataUri(s: string): Option<Bytes> {
    if |DataUriPrefix| <= |s| && s[..|DataUriPrefix|] == DataUriPrefix then Decode(s[|DataUriPrefix|..]) else None
  }

  /** Decoding a stored value recovers the file's bytes exactly. */
  lemma {:induction false} ParseDataUriOfDataUri(bytes: Bytes)
    ensures ParseDataUri(DataUri(bytes)) == Some(bytes)
  {
    var s := DataUri(bytes);
    assert s[..|DataUriPrefix|] == DataUriPrefix;
    assert s[|DataUriPrefix|..] == Encode(bytes);
    DecodeEncode(bytes);
  }

  /** Every string that parses is the data URI of what it parses to. */
  lemma {:induction false} DataUriOfParseDataUri(s: string)
    requires ParseDataUri(s).Some?
    ensures DataUri(ParseDataUri(s).value) == s
  {
    EncodeDecode(s[|DataUriPrefix|..]);
    assert s == s[..|DataUriPrefix|] + s[|DataUriPrefix|..];
  }

  // ---------------------------------------------------------------------------
  // One file

  /**
   * What the loop sees of the outside world: the codec library, the files of
   * the images directory with their contents, and what the library does with
   * each file.
   */
  datatype Env = Env(backend: Backend, disk: map<string, Bytes>, codec: string -> CodecOutcome)

  /** The bytes `compressImage` gives for a file; `None` when the file cannot be read. */
  function FinalBytes(env: Env, name: string): Option<Bytes> {
    if name in env.disk then Compress(env.backend, env.codec(name), Some(env.disk[name])) else None
  }

  /** What the loop body does with one file: an entry, a skip for empty bytes, or a caught error. */
  datatype FileResult = Added(key: string, value: string) | Empty | Failed

  function ProcessFile(env: Env, name: string): FileResult {
    match FinalBytes(env, name)
    case None => Failed
    case Some(bytes) => if |bytes| == 0 then Empty else Added(Stem(name), DataUri(bytes))
  }

  /** The three outcomes of a file, with what an entry holds. */
  lemma {:induction false} ProcessFileSpec(env: Env, name: string)
    ensures ProcessFile(env, name).Failed? <==> name !in env.disk
    ensures ProcessFile(env, name).Empty? <==> FinalBytes(env, name) == Some([])
    ensures ProcessFile(env, name).Added? <==> FinalBytes(env, name).Some? && |FinalBytes(env, name).value| > 0
    ensures ProcessFile(env, name).Added? ==>
      ProcessFile(env, name).key == Stem(name)
      && ParseDataUri(ProcessFile(env, name).value) == FinalBytes(env, name)
  {
    if name in env.disk {
      CompressFails(env.backend, env.codec(name), Some(env.disk[name]));
      var bytes := FinalBytes(env, name).value;
      if |bytes| > 0 {
        ParseDataUriOfDataUri(bytes);
      }
    }
  }

  // ---------------------------------------------------------------------------
  // The mapping

  /** The one key an assignment on a plain object does not store: it sets the prototype, and a string is ignored there. */
  const ProtoKey: string := "__proto__"

  /** `imagesData[key] = value`. */
  function Assign(m: map<string, string>, key: string, value: string): map<string, string> {
    if key == ProtoKey then m else m[key := value]
  }

  function Record(m: map<string, string>, r: FileResult): map<string, string> {
    if r.Added? then Assign(m, r.key, r.value) else m
  }

  /** The outcome of each file, in order. */
  function Results(env: Env, files: seq<string>): (r: seq<FileResult>)
    ensures |r| == |files|
    ensures forall i :: 0 <= i < |files| ==> r[i] == ProcessFile(env, files[i])
  {
    seq(|files|, i requires 0 <= i < |files| => ProcessFile(env, files[i]))
  }

  /** The outcomes of two runs of files are the outcomes of the files one after the other. */
  lemma {:induction false} ResultsAppend(env: Env, a: seq<string>, b: seq<string>)
    ensures Results(env, a + b) == Results(env, a) + Results(env, b)
  {
    var l, r := Results(env, a + b), Results(env, a) + Results(env, b);
    forall i | 0 <= i < |a + b| ensures l[i] == r[i] {
      if i < |a| {
        assert (a + b)[i] == a[i];
      } else {
        assert (a + b)[i] == b[i - |a|];
      }
    }
  }

  /** `imagesData` after the loop body has run with the outcomes `rs`, in order. */
  function Fold(rs: seq<FileResult>): map<string, string>
    decreases |rs|
  {
    if |rs| == 0 then map[] else Record(Fold(rs[..|rs| - 1]), rs[|rs| - 1])
  }

  /** `imagesData` after the loop has processed `files`. */
  function Mapping(env: Env, files: seq<string>): map<string, string> {
    Fold(Results(env, files))
  }

  /** The keys of the outcomes that are entries. */
  function AddedKeys(rs: seq<FileResult>): set<string> {
    set i | 0 <= i < |rs| && rs[i].Added? :: rs[i].key
  }

  lemma {:induction false} AddedKeysSnoc(rs: seq<FileResult>)
    requires |rs| > 0
    ensures var last := rs[|rs| - 1];
      AddedKeys(rs) == AddedKeys(rs[..|rs| - 1]) + (if last.Added? then {last.key} else {})
  {
    var init := rs[..|rs| - 1];
    var last := rs[|rs| - 1];
    forall x | x in AddedKeys(rs)
      ensures x in AddedKeys(init) + (if last.Added? then {last.key} else {})
    {
      var i :| 0 <= i < |rs| && rs[i].Added? && rs[i].key == x;
      if i < |init| {
        assert init[i] == rs[i];
      }
    }
    forall x | x in AddedKeys(init) ensures x in AddedKeys(rs) {
      var i :| 0 <= i < |init| && init[i].Added? && init[i].key == x;
      assert rs[i] == init[i];
    }
    if last.Added? {
      assert rs[|rs| - 1].key in AddedKeys(rs);
    }
  }

  /**
   * The keys of the mapping are exactly the keys of the entries, so there are
   * as many keys as distinct stems among the files that produced one.
   */
  lemma {:induction false} FoldKeys(rs: seq<FileResult>)
    ensures Fold(rs).Keys == AddedKeys(rs) - {ProtoKey}
    ensures |Fold(rs).Keys| == |AddedKeys(rs) - {ProtoKey}|
    decreases |rs|
  {
    if |rs| > 0 {
      FoldKeys(rs[..|rs| - 1]);
      AddedKeysSnoc(rs);
    }
  }

  /** Among the entries with one key, the last decides its value. */
  lemma {:induction false} FoldLastWins(rs: seq<FileResult>, i: nat)
    requires i < |rs| && rs[i].Added? && rs[i].key != ProtoKey
    requires forall j :: i < j < |rs| && rs[j].Added? ==> rs[j].key != rs[i].key
    ensures rs[i].key in Fold(rs) && Fold(rs)[rs[i].key] == rs[i].value
    decreases |rs|
  {
    if i < |rs| - 1 {
      var init := rs[..|rs| - 1];
      assert init[i] == rs[i];
      forall j | i < j < |init| && init[j].Added? ensures init[j].key != init[i].key {
        assert init[j] == rs[j];
      }
      FoldLastWins(init, i);
    }
  }

  /** Every value of the mapping is the value of an entry with that key. */
  lemma {:induction false} FoldValue(rs: seq<FileResult>, key: string)
    requires key in Fold(rs)
    ensures exists i :: 0 <= i < |rs| && rs[i] == Added(key, Fold(rs)[key])
    decreases |rs|
  {
    var init := rs[..|rs| - 1];
    var last := rs[|rs| - 1];
    if last.Added? && last.key == key && key != ProtoKey {
      assert rs[|rs| - 1] == Added(key, Fold(rs)[key]);
    } else {
      FoldValue(init, key);
      var i :| 0 <= i < |init| && init[i] == Added(key, Fold(init)[key]);
      assert rs[i] == init[i];
    }
  }

  /** An outcome that is not an entry (empty bytes, or an error) leaves the mapping as if the file were not listed. */
  lemma {:induction false} FoldSkips(before: seq<FileResult>, r: FileResult, after: seq<FileResult>)
    requires !r.Added?
    ensures Fold(before + [r] + after) == Fold(before + after)
    decreases |after|
  {
    if |after| == 0 {
      assert (before + [r])[..|before|] == before;
      assert before + [r] + after == before + [r];
      assert before + after == before;
    } else {
      var a := after[..|after| - 1];
      FoldSkips(before, r, a);
      assert (before + [r] + after)[..|before + [r] + after| - 1] == before + [r] + a;
      assert (before + after)[..|before + after| - 1] == before + a;
    }
  }

  /** Each value decodes to the final bytes of a file whose stem is its key, and those bytes are not empty. */
  lemma {:induction false} MappingDecodes(env: Env, files: seq<string>, key: string)
    requires key in Mapping(env, files)
    ensures exists i :: (0 <= i < |files| && Stem(files[i]) == key && FinalBytes(env, files[i]).Some?
      && ParseDataUri(Mapping(env, files)[key]) == FinalBytes(env, files[i])
      && |FinalBytes(env, files[i]).value| > 0)
  {
    var rs := Results(env, files);
    FoldValue(rs, key);
    var i :| 0 <= i < |rs| && rs[i] == Added(key, Fold(rs)[key]);
    ProcessFileSpec(env, files[i]);
  }

  // ---------------------------------------------------------------------------
  // The whole run

  /** How the run ends: index.html rewritten, or `process.exit(1)` without writing. */
  datatype RunOutcome = Written(html: string) | Exited

  /**
   * The end of the run once the mapping is built: `html` is what reading
   * index.html gives (`None` when it throws, which ends in the outer
   * `catch` and `process.exit(1)`), `payload` the serialised mapping.
   */
  function Publish(html: Option<string>, payload: string): (r: RunOutcome)
    ensures r.Exited? <==> html.None? || (FirstMatch(html.value, 0).None? && !Contains(html.value, HeadClose))
  {
    match html
    case None => Exited
    case Some(h) =>
      match Splice(h, payload)
      case Ok(out) => Written(out)
      case Err(_) => Exited
  }

  /**
   * `convertImages`: selects the files of `listing`, builds the mapping
   * file by file, and splices `serialize(imagesData)` into `html`.
   * `serialize` stands for `JSON.stringify(imagesData, null, 2)`.
   */
  method ConvertImages(env: Env, listing: Option<seq<string>>, html: Option<string>, serialize: map<string, string> -> string)
    returns (imagesData: map<string, string>, outcome: RunOutcome)
    ensures listing.None? ==> imagesData == map[] && outcome == Exited
    ensures listing.Some? ==> imagesData == Mapping(env, SelectImages(listing.value))
    ensures listing.Some? ==> outcome == Publish(html, serialize(imagesData))
  {
    imagesData := map[];
    if listing.None? {
      outcome := Exited;
      return;
    }
    imagesData := BuildMapping(env, SelectImages(listing.value));
    outcome := Publish(html, serialize(imagesData));
  }

  /** The `for` loop of `convertImages` over the selected files. */
  method BuildMapping(env: Env, files: seq<string>) returns (imagesData: map<string, string>)
    ensures imagesData == Mapping(env, files)
  {
    ghost var rs := Results(env, files);
    imagesData := map[];
    var i := 0;
    while i < |files|
      invariant 0 <= i <= |files|
      invariant imagesData == Fold(rs[..i])
    {
      var file := files[i];
      if file in env.disk {
        var compressed := CompressImage(env.backend, env.codec(file), Some(env.disk[file]));
        if compressed.Some? && |compressed.value| > 0 {
          var key := Stem(file);
          if key != ProtoKey {
            imagesData := imagesData[key := DataUri(compressed.value)];
          }
        }
      }
      assert rs[..i + 1][..i] == rs[..i];
      i := i + 1;
    }
    assert rs[..|files|] == rs;
  }

  /**
   * Running the inliner again over the index.html it wrote, with the same
   * images, writes the same file: the block is replaced, not added twice.
   */
  lemma {:induction false} RerunWritesSame(html: string, payload: string)
    requires Publish(Some(html), payload).Written?
    requires !Contains(payload, Close) && NoDanglingHeader(html)
    ensures Publish(Some(Publish(Some(html), payload).html), payload) == Publish(Some(html), payload)
  {
    SpliceIdempotent(html, payload);
  }
}
