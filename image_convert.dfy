/**
 * The GUI's state and its two actions that matter for the generated module:
 * browse, which appends the chosen image files to the list, and calculate,
 * which encodes every listed file and fills the module template with the
 * IMAGES entries. The file dialog, os.path and the file system are
 * parameters: the chosen paths, two path functions and a map from path to
 * file contents.
 */
module ImageConvert {
  import opened Results
  import opened Text
  import opened Base64Mime
  import opened ImagesDisplay
  import opened ModuleTemplate

  /** Why calculate stops without a module. */
  datatype Error =
    | SourceReadError(path: string)   // open(filename, 'rb') failed: no such file
    | FormatFailed(reason: FormatError)   // TEMPLATE.format raised

  // ----- convert_to_b64, without PIL -----

  /** The text convert_to_b64 gives for the file at path: encodestring of its bytes. */
  function ConvertToB64(disk: map<string, seq<byte>>, path: string): (r: Result<string, Error>)
    ensures r.Ok? <==> path in disk
    ensures r.Err? ==> r.error == SourceReadError(path)
    ensures r.Ok? ==> DecodeMime(r.value) == Some(disk[path])
  {
    if path in disk then
      MimeRoundTrip(disk[path]);
      Ok(EncodeMime(disk[path]))
    else Err(SourceReadError(path))
  }

  // ----- What calculate computes -----

  predicate AllPresent(files: seq<(string, string)>, disk: map<string, seq<byte>>)
  {
    forall k :: 0 <= k < |files| ==> files[k].0 in disk
  }

  /** The (name, payload) pair of every listed file, when all of them can be read. */
  function Pairs(files: seq<(string, string)>, disk: map<string, seq<byte>>): seq<(string, string)>
    requires AllPresent(files, disk)
  {
    seq(|files|, k requires 0 <= k < |files| => (files[k].1, EncodeMime(disk[files[k].0])))
  }

  /**
   * The b64_data list of calculate, file by file in list order; the first
   * file that cannot be read ends it with that file's error.
   */
  function EncodeAll(files: seq<(string, string)>, disk: map<string, seq<byte>>): (r: Result<seq<string>, Error>)
    ensures r.Ok? ==> |r.value| == |files|
    decreases |files|
  {
    if |files| == 0 then Ok([])
    else
      var last := files[|files| - 1];
      match EncodeAll(files[..|files| - 1], disk)
      case Err(e) => Err(e)
      case Ok(entries) =>
        match ConvertToB64(disk, last.0)
        case Err(e) => Err(e)
        case Ok(data) => Ok(entries + [Entry(last.1, data)])
  }

  /**
   * The text calculate writes to the output file, or why it writes nothing:
   * only a file that cannot be read stops it, since TEMPLATE.format does not
   * fail.
   */
  function Generate(files: seq<(string, string)>, disk: map<string, seq<byte>>): (r: Result<string, Error>)
    ensures r.Ok? <==> EncodeAll(files, disk).Ok?
    ensures r.Err? ==> r == Err(EncodeAll(files, disk).error)
  {
    match EncodeAll(files, disk)
    case Err(e) => Err(e)
    case Ok(entries) =>
      FormatTemplate(JoinLines(entries));
      match Format(Template, JoinLines(entries))
      case Ok(m) => Ok(m)
      case Err(reason) => Err(FormatFailed(reason))
  }

  // ----- Properties of calculate -----

  /** Once a prefix of the list fails, the whole list fails with the same error. */
  lemma {:induction false} EncodeAllErrorStays(files: seq<(string, string)>, disk: map<string, seq<byte>>, j: nat)
    requires j <= |files| && EncodeAll(files[..j], disk).Err?
    ensures EncodeAll(files, disk) == EncodeAll(files[..j], disk)
    decreases |files|
  {
    if j < |files| {
      var init := files[..|files| - 1];
      assert init[..j] == files[..j];
      EncodeAllErrorStays(init, disk, j);
    } else {
      assert files[..j] == files;
    }
  }

  /** One more file, as in one turn of calculate's loop: its error ends the list, or its entry is appended. */
  lemma EncodeAllNext(files: seq<(string, string)>, disk: map<string, seq<byte>>, i: nat, entries: seq<string>)
    requires i < |files| && EncodeAll(files[..i], disk) == Ok(entries)
    ensures ConvertToB64(disk, files[i].0).Err? ==>
      EncodeAll(files[..i + 1], disk) == Err(ConvertToB64(disk, files[i].0).error)
    ensures ConvertToB64(disk, files[i].0).Ok? ==>
      EncodeAll(files[..i + 1], disk) == Ok(entries + [Entry(files[i].1, ConvertToB64(disk, files[i].0).value)])
  {
    assert files[..i + 1][..i] == files[..i];
  }

  /** The payload entries of the readable files come out in list order. */
  lemma EntriesSnoc(files: seq<(string, string)>, disk: map<string, seq<byte>>)
    requires |files| > 0 && AllPresent(files, disk)
    ensures Entries(Pairs(files, disk)) ==
      Entries(Pairs(files[..|files| - 1], disk)) + [Entry(files[|files| - 1].1, EncodeMime(disk[files[|files| - 1].0]))]
  {
    var init := files[..|files| - 1];
    var a := Entries(Pairs(files, disk));
    var b := Entries(Pairs(init, disk)) + [Entry(files[|files| - 1].1, EncodeMime(disk[files[|files| - 1].0]))];
    assert |a| == |b|;
    forall k | 0 <= k < |a| ensures a[k] == b[k] {
      if k < |init| {
        assert init[k] == files[k];
      }
    }
  }

  /**
   * The b64_data list is complete exactly when every listed file can be
   * read, and then holds one entry per file, in order, with that file's
   * encodestring payload; otherwise the error names the first file that
   * cannot be read.
   */
  lemma {:induction false} EncodeAllSpec(files: seq<(string, string)>, disk: map<string, seq<byte>>)
    ensures EncodeAll(files, disk).Ok? <==> AllPresent(files, disk)
    ensures AllPresent(files, disk) ==> EncodeAll(files, disk) == Ok(Entries(Pairs(files, disk)))
    ensures EncodeAll(files, disk).Err? ==>
      exists i :: 0 <= i < |files| && files[i].0 !in disk &&
        EncodeAll(files, disk).error == SourceReadError(files[i].0) &&
        forall j :: 0 <= j < i ==> files[j].0 in disk
    decreases |files|
  {
    if |files| == 0 {
      assert Entries(Pairs(files, disk)) == [];
    } else {
      var n := |files| - 1;
      var init := files[..n];
      EncodeAllSpec(init, disk);
      assert forall k :: 0 <= k < n ==> init[k] == files[k];
      if AllPresent(files, disk) {
        assert AllPresent(init, disk);
        EntriesSnoc(files, disk);
      } else if EncodeAll(init, disk).Err? {
        var i :| 0 <= i < n && init[i].0 !in disk &&
          EncodeAll(init, disk).error == SourceReadError(init[i].0) &&
          forall j :: 0 <= j < i ==> init[j].0 in disk;
        assert files[i] == init[i];
      } else {
        assert AllPresent(init, disk);
        var k :| 0 <= k < |files| && files[k].0 !in disk;
        assert k == n;
      }
    }
  }

  /**
   * calculate succeeds exactly when every listed file can be read; the module
   * it writes is then the template with the entries, joined by line breaks,
   * inside the IMAGES display. TEMPLATE.format never fails.
   */
  lemma GenerateSpec(files: seq<(string, string)>, disk: map<string, seq<byte>>)
    ensures Generate(files, disk).Ok? <==> AllPresent(files, disk)
    ensures AllPresent(files, disk) ==> Generate(files, disk) == Ok(Rendered(Body(Pairs(files, disk))))
    ensures Generate(files, disk).Err? ==> Generate(files, disk).error.SourceReadError?
  {
    EncodeAllSpec(files, disk);
    if EncodeAll(files, disk).Ok? {
      FormatTemplate(JoinLines(EncodeAll(files, disk).value));
    }
  }

  /**
   * End to end: when no listed name holds a quote, backslash or line break,
   * the generated module's IMAGES display holds one entry per listed file,
   * in order, under the file's name, and its value decodes to exactly the
   * file's bytes.
   */
  lemma GeneratedImages(files: seq<(string, string)>, disk: map<string, seq<byte>>)
    requires AllPresent(files, disk)
    requires forall k :: 0 <= k < |files| ==> NameSafe(files[k].1)
    ensures Generate(files, disk).Ok?
    ensures ImagesOf(Generate(files, disk).value).Some?
    ensures var kvs := ImagesOf(Generate(files, disk).value).value;
      |kvs| == |files| &&
      forall k :: 0 <= k < |files| ==> kvs[k].0 == files[k].1 && DecodeMime(kvs[k].1) == Some(disk[files[k].0])
  {
    GenerateSpec(files, disk);
    var pairs := Pairs(files, disk);
    ImagesOfRendered(Body(pairs));
    assert Embeddable(pairs) by {
      forall k | 0 <= k < |pairs| ensures NameSafe(pairs[k].0) && LiteralSafe(pairs[k].1) {
        MimeHasNoQuote(disk[files[k].0]);
      }
    }
    ParseBodyOfBody(pairs);
    var kvs := Stored(pairs);
    forall k | 0 <= k < |files| ensures DecodeMime(kvs[k].1) == Some(disk[files[k].0]) {
      StoredValueDecodes(disk[files[k].0]);
    }
  }

  /** The line break that opens each triple-quoted value does not disturb decoding. */
  lemma StoredValueDecodes(b: seq<byte>)
    ensures DecodeMime("\n" + EncodeMime(b)) == Some(b)
  {
    var p := EncodeMime(b);
    assert ("\n" + p)[1..] == p;
    assert RemoveNewlines("\n" + p) == RemoveNewlines(p);
    MimeRoundTrip(b);
  }

  /**
   * The IMAGES dict of the generated module: every listed name is a key, and
   * when a name is listed more than once the file listed last wins.
   */
  lemma GeneratedDict(files: seq<(string, string)>, disk: map<string, seq<byte>>)
    requires AllPresent(files, disk)
    requires forall k :: 0 <= k < |files| ==> NameSafe(files[k].1)
    ensures Generate(files, disk).Ok? && ImagesOf(Generate(files, disk).value).Some?
    ensures var images := DictOf(ImagesOf(Generate(files, disk).value).value);
      (forall name :: name in images <==> exists k :: 0 <= k < |files| && files[k].1 == name) &&
      forall k :: 0 <= k < |files| && (forall l :: k < l < |files| ==> files[l].1 != files[k].1) ==>
        DecodeMime(images[files[k].1]) == Some(disk[files[k].0])
  {
    GeneratedImages(files, disk);
    var kvs := ImagesOf(Generate(files, disk).value).value;
    DictOfLastWins(kvs);
  }

  // ----- The GUI -----

  /** The (path, name) pair browse adds for each chosen file name. */
  function Selection(filenames: seq<string>, normpath: string -> string, tail: string -> string): seq<(string, string)>
  {
    seq(|filenames|, k requires 0 <= k < |filenames| => (normpath(filenames[k]), tail(normpath(filenames[k]))))
  }

  function Names(files: seq<(string, string)>): seq<string>
  {
    seq(|files|, k requires 0 <= k < |files| => files[k].1)
  }

  /**
   * The GUI window: the list of (path, name) pairs to convert and the names
   * its list box shows.
   */
  class Gui {
    var files: seq<(string, string)>
    var shown: seq<string>

    /** The list box shows the name of every listed file, in order. */
    predicate Valid()
      reads this
    {
      shown == Names(files)
    }

    constructor()
      ensures files == [] && shown == [] && Valid()
    {
      files := [];
      shown := [];
    }

    /**
     * Appends every chosen file, under its normalised path and the last
     * component of that path, to the list and to the list box. A cancelled
     * dialog (no file names) leaves both as they are.
     */
    method Browse(filenames: seq<string>, normpath: string -> string, tail: string -> string)
      requires Valid()
      modifies this
      ensures Valid()
      ensures files == old(files) + Selection(filenames, normpath, tail)
      ensures |filenames| == 0 ==> files == old(files) && shown == old(shown)
    {
      if |filenames| == 0 {
        assert Selection(filenames, normpath, tail) == [];
        assert files + [] == files;
        return;
      }
      var i := 0;
      while i < |filenames|
        invariant 0 <= i <= |filenames|
        invariant files == old(files) + Selection(filenames[..i], normpath, tail)
        invariant Valid()
      {
        var fn := normpath(filenames[i]);
        var name := tail(fn);
        ghost var before := files;
        shown := shown + [name];
        files := files + [(fn, name)];
        assert Selection(filenames[..i + 1], normpath, tail) == Selection(filenames[..i], normpath, tail) + [(fn, name)];
        assert Names(files) == Names(before) + [name];
        i := i + 1;
      }
      assert filenames[..i] == filenames;
    }

    /**
     * The module text calculate writes, or why it writes none. When the output
     * file exists and the user declines to overwrite it, nothing happens
     * (None); the listed files are left as they are either way.
     */
    method Calculate(disk: map<string, seq<byte>>, outputExists: bool, overwrite: bool)
      returns (r: Option<Result<string, Error>>)
      ensures r == if outputExists && !overwrite then None else Some(Generate(files, disk))
    {
      if outputExists && !overwrite {
        return None;
      }
      var entries: seq<string> := [];
      var i := 0;
      while i < |files|
        invariant 0 <= i <= |files|
        invariant EncodeAll(files[..i], disk) == Ok(entries)
      {
        var (path, name) := files[i];
        var data := ConvertToB64(disk, path);
        EncodeAllNext(files, disk, i, entries);
        if data.Err? {
          EncodeAllErrorStays(files, disk, i + 1);
          return Some(Err(data.error));
        }
        entries := entries + [Entry(name, data.value)];
        i := i + 1;
      }
      assert files[..i] == files;
      var text := Format(Template, JoinLines(entries));
      match text {
        case Ok(m) => r := Some(Ok(m));
        case Err(reason) => r := Some(Err(FormatFailed(reason)));
      }
    }
  }
}
