/**
 * The caption tool (`metadata.py`): a text file of lines
 * `name | key=value | key=value ...` is read into captions per image, and
 * each image is routed by its extension to the writer for its format.
 */
module Metadata {
  import opened Common
  import opened Text
  import opened PyDict
  import Images

  /** One image's captions: key to value, in insertion order. */
  type Captions = Dict<string>

  /** The parsed file: image name to its captions, in order of first appearance. */
  type CaptionFile = Dict<Captions>

  // ---- read_metadata_from_txt ----

  /** An entry split at its first `=`, both sides stripped. */
  function KeyValue(entry: string): (r: (string, string))
    requires '=' in entry
    ensures IsStripped(r.0) && IsStripped(r.1) && '=' !in r.0
  {
    var kv := SplitOnce(entry, '=');
    StripKeepsOut(kv.0, '=');
    (Strip(kv.0), Strip(kv.1))
  }

  /** One entry of a line: skipped without `=`, else stored under its key. */
  function AddEntry(captions: Captions, entry: string): (r: Captions)
    ensures '=' !in entry ==> r == captions
    ensures '=' in entry ==> var (key, value) := KeyValue(entry);
              && Get(r, key) == Some(value)
              && forall other :: other != key ==> Get(r, other) == Get(captions, other)
    ensures forall k :: k in Keys(captions) ==> k in Keys(r)
    ensures |r| <= |captions| + 1
  {
    if '=' !in entry then captions
    else Put(captions, KeyValue(entry).0, KeyValue(entry).1)
  }

  /** The entries of a line, taken from left to right. */
  function ParseEntries(captions: Captions, entries: seq<string>): (r: Captions)
    ensures forall k :: k in Keys(captions) ==> k in Keys(r)
    ensures |r| <= |captions| + |entries|
    decreases |entries|
  {
    if entries == [] then captions
    else AddEntry(ParseEntries(captions, entries[..|entries| - 1]), entries[|entries| - 1])
  }

  /** The fields of a line: the stripped line cut at every `|`. */
  function Fields(line: string): seq<string> {
    Split(Strip(line), '|')
  }

  /** The image a line with a `|` names: its stripped first field. */
  function LineName(line: string): string
    requires '|' in Strip(line)
  {
    Strip(Fields(line)[0])
  }

  /** The captions a line with a `|` gives its image: those of its later fields. */
  function LineCaptions(line: string): Captions
    requires '|' in Strip(line)
  {
    ParseEntries([], Fields(line)[1..])
  }

  /** One line: skipped without `|`; otherwise its stripped first field names the image, whose captions it replaces. */
  function AddLine(file: CaptionFile, line: string): (r: CaptionFile)
    ensures '|' !in Strip(line) ==> r == file
    ensures '|' in Strip(line) ==>
              && Get(r, LineName(line)) == Some(LineCaptions(line))
              && forall other :: other != LineName(line) ==> Get(r, other) == Get(file, other)
    ensures |r| <= |file| + 1
  {
    var parts := Fields(line);
    if |parts| < 2 then file
    else Put(file, LineName(line), LineCaptions(line))
  }

  /** The lines of a file, taken from first to last. */
  function ParseLines(lines: seq<string>): (r: CaptionFile)
    ensures |r| <= |lines|
    decreases |lines|
  {
    if lines == [] then [] else AddLine(ParseLines(lines[..|lines| - 1]), lines[|lines| - 1])
  }

  lemma ParseLinesStep(lines: seq<string>, i: nat)
    requires i < |lines|
    ensures ParseLines(lines[..i + 1]) == AddLine(ParseLines(lines[..i]), lines[i])
  {
    assert lines[..i + 1][..i] == lines[..i];
  }

  lemma ParseLinesAppend(lines: seq<string>, line: string)
    ensures ParseLines(lines + [line]) == AddLine(ParseLines(lines), line)
  {
    assert (lines + [line])[..|lines|] == lines;
  }

  lemma ParseEntriesStep(entries: seq<string>, j: nat)
    requires j < |entries|
    ensures ParseEntries([], entries[..j + 1]) == AddEntry(ParseEntries([], entries[..j]), entries[j])
  {
    assert entries[..j + 1][..j] == entries[..j];
  }

  /** The inner loop of `read_metadata_from_txt`: the entries after a line's first field. */
  method ReadEntries(entries: seq<string>) returns (metadata: Captions)
    ensures metadata == ParseEntries([], entries)
  {
    metadata := [];
    for j := 0 to |entries|
      invariant metadata == ParseEntries([], entries[..j])
    {
      ParseEntriesStep(entries, j);
      var entry := entries[j];
      if '=' !in entry {
        continue;
      }
      var (key, value) := KeyValue(entry);
      metadata := Put(metadata, key, value);
    }
    assert entries[..|entries|] == entries;
  }

  /** `read_metadata_from_txt` over the file's lines. */
  method ReadMetadataFromTxt(lines: seq<string>) returns (metadataDict: CaptionFile)
    ensures metadataDict == ParseLines(lines)
  {
    metadataDict := [];
    for i := 0 to |lines|
      invariant metadataDict == ParseLines(lines[..i])
    {
      ParseLinesStep(lines, i);
      var parts := Fields(lines[i]);
      if |parts| < 2 {
        continue;
      }
      var imageFile := Strip(parts[0]);
      var metadata := ReadEntries(parts[1..]);
      metadataDict := Put(metadataDict, imageFile, metadata);
    }
    assert lines[..|lines|] == lines;
  }

  /** A line that has no `|` once stripped adds nothing. */
  lemma LineWithoutPipeSkipped(lines: seq<string>, line: string)
    requires '|' !in Strip(line)
    ensures ParseLines(lines + [line]) == ParseLines(lines)
  {
    ParseLinesAppend(lines, line);
    assert |Fields(line)| < 2;
  }

  /**
   * A line with a `|` maps its image to exactly the captions of its own
   * entries (possibly none), replacing any earlier line's, and leaves every
   * other image as it was.
   */
  lemma LaterLineReplaces(lines: seq<string>, line: string)
    requires '|' in Strip(line)
    ensures Get(ParseLines(lines + [line]), LineName(line)) == Some(LineCaptions(line))
    ensures forall other :: other != LineName(line) ==>
              Get(ParseLines(lines + [line]), other) == Get(ParseLines(lines), other)
  {
    ParseLinesAppend(lines, line);
    assert |Fields(line)| >= 2;
  }

  /** Entries without `=` are all skipped: such a line gives its image no captions. */
  lemma {:induction false} NoValidEntries(entries: seq<string>)
    requires forall i :: 0 <= i < |entries| ==> '=' !in entries[i]
    ensures ParseEntries([], entries) == []
  {
    if entries != [] {
      NoValidEntries(entries[..|entries| - 1]);
    }
  }

  /** An entry is split at its first `=` only, so the value may itself hold `=`. */
  lemma EntrySplitsAtFirstEquals(captions: Captions, key: string, value: string)
    requires '=' !in key
    ensures AddEntry(captions, key + "=" + value) == Put(captions, Strip(key), Strip(value))
  {
    SplitOnceOf(key, '=', value);
  }

  /** Within a line, the last entry for a key wins. */
  lemma LaterEntryOverwrites(captions: Captions, entries: seq<string>, key: string, value: string)
    requires '=' !in key
    ensures Get(ParseEntries(captions, entries + [key + "=" + value]), Strip(key)) == Some(Strip(value))
  {
    assert (entries + [key + "=" + value])[..|entries|] == entries;
    EntrySplitsAtFirstEquals(ParseEntries(captions, entries), key, value);
  }

  /** What the parser produces: stripped keys without `=` and stripped values. */
  predicate WellFormedCaptions(captions: seq<(string, string)>) {
    forall e :: e in captions ==> IsStripped(e.0) && IsStripped(e.1) && '=' !in e.0
  }

  /** Stripped image names, each with well-formed captions. */
  predicate WellFormedFile(file: seq<(string, Captions)>) {
    forall e :: e in file ==> IsStripped(e.0) && WellFormedCaptions(e.1)
  }

  lemma AddEntryWellFormed(captions: Captions, entry: string)
    requires WellFormedCaptions(captions)
    ensures WellFormedCaptions(AddEntry(captions, entry))
  {
    if '=' in entry {
      var kv := SplitOnce(entry, '=');
      var key, value := Strip(kv.0), Strip(kv.1);
      StripKeepsOut(kv.0, '=');
      PutElements(captions, key, value);
      assert AddEntry(captions, entry) == Put(captions, key, value);
    }
  }

  lemma {:induction false} ParseEntriesWellFormed(entries: seq<string>)
    ensures WellFormedCaptions(ParseEntries([], entries))
  {
    if entries != [] {
      ParseEntriesWellFormed(entries[..|entries| - 1]);
      AddEntryWellFormed(ParseEntries([], entries[..|entries| - 1]), entries[|entries| - 1]);
    }
  }

  lemma AddLineWellFormed(file: CaptionFile, line: string)
    requires WellFormedFile(file)
    ensures WellFormedFile(AddLine(file, line))
  {
    var parts := Fields(line);
    if |parts| >= 2 {
      var name, captions := Strip(parts[0]), ParseEntries([], parts[1..]);
      ParseEntriesWellFormed(parts[1..]);
      PutElements(file, name, captions);
      assert AddLine(file, line) == Put(file, name, captions);
    }
  }

  /** Every image name, key and value the parser returns is stripped, and no key holds `=`. */
  lemma {:induction false} ParseLinesWellFormed(lines: seq<string>)
    ensures WellFormedFile(ParseLines(lines))
  {
    if lines != [] {
      ParseLinesWellFormed(lines[..|lines| - 1]);
      AddLineWellFormed(ParseLines(lines[..|lines| - 1]), lines[|lines| - 1]);
    }
  }

  // ---- set_metadata and its writers ----

  const DescriptionKey: string := "Description"

  /**
   * A PNG text entry as `set_metadata_png` hands it to Pillow:
   * `InternationalText` is an `add_itxt` call (the description), `PlainText`
   * an `add_text` call (every other key). Which chunk type Pillow then
   * writes for an `add_text` value (tEXt, or iTXt when it is not Latin-1) is
   * Pillow's choice and is not modelled.
   */
  datatype Chunk = InternationalText(key: string, value: string) | PlainText(key: string, value: string)

  /** The writer an image is routed to, with what it is given to write. */
  datatype Writer =
    | JpegWriter(args: seq<string>)
    | PngWriter(chunks: seq<Chunk>)
    | GifWriter(args: seq<string>)
    | Unsupported(ext: string)

  function Max(a: int, b: int): int {
    if a < b then b else a
  }

  /** Some character of `path[lo..hi]` is not a dot. */
  predicate HasNameChar(path: string, lo: int, hi: int)
    requires 0 <= lo && hi <= |path|
  {
    exists j :: lo <= j < hi && path[j] != '.'
  }

  /** The last directory separator of `path`, `\` or `/`, or -1. */
  function LastSeparator(path: string): (i: int)
    ensures -1 <= i < |path|
  {
    Max(LastIndexOf(path, '\\'), LastIndexOf(path, '/'))
  }

  /**
   * `os.path.splitext(path)[1]` with Windows rules: `\` and `/` both end a
   * directory, and the leading dots of a name start no extension.
   */
  function Extension(path: string): (ext: string)
    ensures ext == [] || (ext[0] == '.' && EndsWith(path, ext) && '.' !in ext[1..])
    ensures ext != [] <==> exists j, d :: LastSeparator(path) < j < d < |path| && path[j] != '.' && path[d] == '.'
  {
    var sep := LastSeparator(path);
    var dot := LastIndexOf(path, '.');
    ExtensionRule(path, sep, dot);
    if dot > sep && HasNameChar(path, sep + 1, dot) then path[dot..] else []
  }

  /** The last dot ends the extension's stem exactly when some dot in the last component follows a non-dot. */
  lemma ExtensionRule(path: string, sep: int, dot: int)
    requires -1 <= sep < |path| && dot == LastIndexOf(path, '.')
    ensures (dot > sep && HasNameChar(path, sep + 1, dot)) <==>
            exists j, d :: sep < j < d < |path| && path[j] != '.' && path[d] == '.'
  {
    if exists j, d :: sep < j < d < |path| && path[j] != '.' && path[d] == '.' {
      var j, d :| sep < j < d < |path| && path[j] != '.' && path[d] == '.';
      if dot < d {
        AfterLast(path, '.', d);
      }
      assert HasNameChar(path, sep + 1, dot) by {
        assert sep + 1 <= j < dot && path[j] != '.';
      }
    }
    if dot > sep && HasNameChar(path, sep + 1, dot) {
      var j :| sep + 1 <= j < dot && path[j] != '.';
      assert sep < j < dot < |path| && path[j] != '.' && path[dot] == '.';
    }
  }

  /** Nothing after the last occurrence of `c` is a `c`. */
  lemma AfterLast(s: string, c: char, j: int)
    requires LastIndexOf(s, c) < j <= |s|
    ensures c !in s[j..]
  {
    var i := LastIndexOf(s, c);
    if i >= 0 {
      assert s[j..] == s[i + 1..][j - i - 1..];
    } else {
      assert forall m :: j <= m < |s| ==> s[m] in s;
    }
  }

  /** An extension lies wholly within the last path component. */
  lemma ExtensionWithinName(path: string)
    ensures '\\' !in Extension(path) && '/' !in Extension(path)
  {
    if Extension(path) != [] {
      var dot := LastIndexOf(path, '.');
      AfterLast(path, '\\', dot);
      AfterLast(path, '/', dot);
    }
  }

  /** The exiftool arguments for a JPEG: `-key=value` per caption in order, then the path. */
  function JpgArgs(captions: Captions, path: string): (args: seq<string>)
    ensures |args| == |captions| + 1 && args[|captions|] == path
  {
    seq(|captions|, i requires 0 <= i < |captions| => "-" + captions[i].0 + "=" + captions[i].1) + [path]
  }

  /** The exiftool arguments for a GIF: `-XMP:key=value` per caption in order, then the path. */
  function GifArgs(captions: Captions, path: string): (args: seq<string>)
    ensures |args| == |captions| + 1 && args[|captions|] == path
  {
    seq(|captions|, i requires 0 <= i < |captions| => "-XMP:" + captions[i].0 + "=" + captions[i].1) + [path]
  }

  /** With keys free of `=`, each JPEG argument gives back its caption: drop `-`, cut at the first `=`. */
  lemma JpgArgsRoundTrip(captions: Captions, path: string)
    requires forall i :: 0 <= i < |captions| ==> '=' !in captions[i].0
    ensures var args := JpgArgs(captions, path);
            forall i :: 0 <= i < |captions| ==>
              && StartsWith(args[i], "-")
              && '=' in args[i][1..] && SplitOnce(args[i][1..], '=') == captions[i]
  {
    var args := JpgArgs(captions, path);
    forall i | 0 <= i < |captions|
      ensures StartsWith(args[i], "-") && '=' in args[i][1..] && SplitOnce(args[i][1..], '=') == captions[i]
    {
      assert args[i] == "-" + (captions[i].0 + "=" + captions[i].1);
      assert args[i][1..] == captions[i].0 + ['='] + captions[i].1;
      SplitOnceOf(captions[i].0, '=', captions[i].1);
    }
  }

  /** With keys free of `=`, each GIF argument gives back its caption: drop `-XMP:`, cut at the first `=`. */
  lemma GifArgsRoundTrip(captions: Captions, path: string)
    requires forall i :: 0 <= i < |captions| ==> '=' !in captions[i].0
    ensures var args := GifArgs(captions, path);
            forall i :: 0 <= i < |captions| ==>
              && StartsWith(args[i], "-XMP:")
              && '=' in args[i][5..] && SplitOnce(args[i][5..], '=') == captions[i]
  {
    var args := GifArgs(captions, path);
    forall i | 0 <= i < |captions|
      ensures StartsWith(args[i], "-XMP:") && '=' in args[i][5..] && SplitOnce(args[i][5..], '=') == captions[i]
    {
      assert args[i] == "-XMP:" + (captions[i].0 + "=" + captions[i].1);
      assert args[i][5..] == captions[i].0 + ['='] + captions[i].1;
      SplitOnceOf(captions[i].0, '=', captions[i].1);
    }
  }

  /** The captions read from a file always survive the trip into exiftool arguments. */
  lemma ParsedCaptionsRoundTrip(lines: seq<string>, name: string, path: string)
    requires Get(ParseLines(lines), name).Some?
    ensures var captions := Get(ParseLines(lines), name).value;
            forall i :: 0 <= i < |captions| ==>
              && '=' in JpgArgs(captions, path)[i][1..] && SplitOnce(JpgArgs(captions, path)[i][1..], '=') == captions[i]
              && '=' in GifArgs(captions, path)[i][5..] && SplitOnce(GifArgs(captions, path)[i][5..], '=') == captions[i]
  {
    var file := ParseLines(lines);
    ParseLinesWellFormed(lines);
    var k := KeyIndex(file, name);
    var captions := file[k].1;
    assert file[k] in file;
    assert forall i :: 0 <= i < |captions| ==> captions[i] in captions;
    JpgArgsRoundTrip(captions, path);
    GifArgsRoundTrip(captions, path);
  }

  /** The tEXt chunks of a PNG: every caption other than the description, in order. */
  function TextChunks(captions: seq<(string, string)>): (chunks: seq<Chunk>)
    ensures forall c :: c in chunks ==> c.PlainText? && c.key != DescriptionKey && (c.key, c.value) in captions
    ensures forall e :: e in captions && e.0 != DescriptionKey ==> PlainText(e.0, e.1) in chunks
  {
    if captions == [] then []
    else (if captions[0].0 != DescriptionKey then [PlainText(captions[0].0, captions[0].1)] else [])
         + TextChunks(captions[1..])
  }

  /** The chunks of a PNG: the description as iTXt first, if present, then the rest as tEXt. */
  function PngChunks(captions: Captions): seq<Chunk> {
    (match Get(captions, DescriptionKey)
     case Some(d) => [InternationalText(DescriptionKey, d)]
     case None => [])
    + TextChunks(captions)
  }

  lemma {:induction false} TextChunksCount(captions: seq<(string, string)>)
    requires DistinctKeys(captions)
    ensures |TextChunks(captions)| == if DescriptionKey in Keys(captions) then |captions| - 1 else |captions|
  {
    if captions != [] {
      assert Keys(captions) == [captions[0].0] + Keys(captions[1..]);
      assert DistinctKeys(captions[1..]) by {
        forall i, j | 0 <= i < j < |captions[1..]|
          ensures captions[1..][i].0 != captions[1..][j].0
        {
          assert captions[1..][i] == captions[i + 1] && captions[1..][j] == captions[j + 1];
        }
      }
      TextChunksCount(captions[1..]);
      if captions[0].0 == DescriptionKey {
        assert forall j :: 0 <= j < |captions[1..]| ==> Keys(captions[1..])[j] == captions[j + 1].0;
      }
    }
  }

  /**
   * The description and the other keys partition the captions: one chunk
   * per caption, the description (if present) as the only iTXt chunk, every
   * other caption as a tEXt chunk, each holding the caption's value.
   */
  lemma PngChunksPartition(captions: Captions)
    ensures var chunks := PngChunks(captions);
            && |chunks| == |captions|
            && (forall c :: c in chunks ==> Get(captions, c.key) == Some(c.value))
            && (forall c :: c in chunks ==> (c.InternationalText? <==> c.key == DescriptionKey))
            && (forall i :: 0 <= i < |captions| && captions[i].0 != DescriptionKey ==>
                  PlainText(captions[i].0, captions[i].1) in chunks)
            && (DescriptionKey in Keys(captions) <==>
                  InternationalText(DescriptionKey, Get(captions, DescriptionKey).GetOr("")) in chunks)
  {
    TextChunksCount(captions);
    var chunks := PngChunks(captions);
    forall c | c in TextChunks(captions)
      ensures Get(captions, c.key) == Some(c.value)
    {
      var i :| 0 <= i < |captions| && captions[i] == (c.key, c.value);
    }
    assert forall i :: 0 <= i < |captions| ==> captions[i] in captions;
  }

  /** `set_metadata`: route by the lower-cased extension. */
  function SetMetadata(path: string, captions: Captions): (w: Writer)
    ensures w.Unsupported? <==> Lower(Extension(path)) !in Images.ImageSuffixes
    ensures (Lower(Extension(path)) == ".jpg" || Lower(Extension(path)) == ".jpeg") <==>
              w == JpegWriter(JpgArgs(captions, path))
    ensures Lower(Extension(path)) == ".png" <==> w == PngWriter(PngChunks(captions))
    ensures Lower(Extension(path)) == ".gif" <==> w == GifWriter(GifArgs(captions, path))
  {
    Route(Lower(Extension(path)), path, captions)
  }

  /** The branch of `set_metadata` taken for a lower-cased extension. */
  function Route(ext: string, path: string, captions: Captions): (w: Writer)
    ensures w.Unsupported? <==> ext !in Images.ImageSuffixes
    ensures w.Unsupported? ==> w.ext == ext
    ensures (ext == ".jpg" || ext == ".jpeg") <==> w == JpegWriter(JpgArgs(captions, path))
    ensures ext == ".png" <==> w == PngWriter(PngChunks(captions))
    ensures ext == ".gif" <==> w == GifWriter(GifArgs(captions, path))
  {
    if ext == ".jpg" || ext == ".jpeg" then JpegWriter(JpgArgs(captions, path))
    else if ext == ".png" then PngWriter(PngChunks(captions))
    else if ext == ".gif" then GifWriter(GifArgs(captions, path))
    else Unsupported(ext)
  }

  /** Every file a writer is chosen for is one the quiz lists as an image. */
  lemma WrittenFilesAreImages(path: string, captions: Captions)
    requires !SetMetadata(path, captions).Unsupported?
    ensures Images.IsImageName(path)
  {
    var ext := Extension(path);
    LowerOfSuffix(path, ext);
    var i :| 0 <= i < |Images.ImageSuffixes| && Images.ImageSuffixes[i] == Lower(ext);
  }

  lemma UpperCaseExtension()
    ensures Extension("C.JPG") == ".JPG"
  {
    var p := "C.JPG";
    assert '\\' !in p && '/' !in p;
    LastIndexOfAt(p, '.', 1);
    assert HasNameChar(p, 0, 1) by {
      assert p[0] != '.';
    }
  }

  /** Case is ignored when routing. */
  lemma UpperCaseRouted(captions: Captions)
    ensures SetMetadata("C.JPG", captions) == JpegWriter(JpgArgs(captions, "C.JPG"))
  {
    UpperCaseExtension();
    assert Lower(".JPG") == ".jpg" by {
      assert Lower(".JPG") == [LowerChar('.')] + Lower("JPG");
      assert Lower("JPG") == [LowerChar('J')] + Lower("PG");
      assert Lower("PG") == [LowerChar('P')] + Lower("G");
    }
    assert SetMetadata("C.JPG", captions) == Route(".jpg", "C.JPG", captions);
  }

  /** Only the last dot starts the extension. */
  lemma LastDotCounts()
    ensures Extension("a.b.c") == ".c"
  {
    var p := "a.b.c";
    assert '\\' !in p && '/' !in p;
    LastIndexOfAt(p, '.', 3);
    assert HasNameChar(p, 0, 3) by {
      assert p[0] != '.';
    }
  }

  /** A dot in a directory name is not an extension. */
  lemma DirectoryDotIgnored()
    ensures Extension("v.2\\cat") == ""
  {
    var p := "v.2\\cat";
    assert '/' !in p;
    LastIndexOfAt(p, '.', 1);
    LastIndexOfAt(p, '\\', 3);
    assert LastSeparator(p) == 3;
  }

  /**
   * A file named just `.png` is listed as an image by the quiz, yet its
   * name has no extension here, so no writer is chosen for it.
   */
  lemma DotFileListedButNotWritten(captions: Captions)
    ensures Images.IsImageName(".png")
    ensures SetMetadata(".png", captions) == Unsupported("")
  {
    DotFileListed();
    DotFileHasNoExtension();
    assert Lower([]) == [];
  }

  lemma DotFileListed()
    ensures Images.IsImageName(".png")
  {
    var p := ".png";
    assert Lower(p) == p;
    assert EndsWith(p, Images.ImageSuffixes[2]);
  }

  lemma DotFileHasNoExtension()
    ensures Extension(".png") == []
  {
    var p := ".png";
    assert '\\' !in p && '/' !in p;
    LastIndexOfAt(p, '.', 0);
  }
}
