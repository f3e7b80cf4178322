/**
 * The image side of the quiz: which files of the image folder are offered
 * and in what order (`load_images`), and how a caption is picked out of the
 * metadata a file carries (`extract_metadata`).
 */
module Images {
  import opened Common
  import opened Text
  import opened PyDict

  const ImageSuffixes: seq<string> := [".jpg", ".jpeg", ".png", ".gif"]

  /** `f.lower().endswith(('.jpg', '.jpeg', '.png', '.gif'))`. */
  predicate IsImageName(f: string) {
    exists i :: 0 <= i < |ImageSuffixes| && EndsWith(Lower(f), ImageSuffixes[i])
  }

  /** The comprehension of `load_images`: the image names, in listing order. */
  function ImageNames(listing: seq<string>): (r: seq<string>)
    ensures forall f :: f in r <==> f in listing && IsImageName(f)
    ensures multiset(r) <= multiset(listing)
    ensures forall f :: multiset(r)[f] == if IsImageName(f) then multiset(listing)[f] else 0
  {
    if listing == [] then []
    else
      var rest := ImageNames(listing[1..]);
      assert listing == [listing[0]] + listing[1..];
      if IsImageName(listing[0]) then [listing[0]] + rest else rest
  }

  // ---- Python's ordering of strings: by code point, a prefix first ----

  predicate NotAfter(a: string, b: string) {
    a == [] || (b != [] && (a[0] < b[0] || (a[0] == b[0] && NotAfter(a[1..], b[1..]))))
  }

  lemma {:induction false} NotAfterReflexive(a: string)
    ensures NotAfter(a, a)
  {
    if a != [] {
      NotAfterReflexive(a[1..]);
    }
  }

  lemma {:induction false} NotAfterTotal(a: string, b: string)
    ensures NotAfter(a, b) || NotAfter(b, a)
  {
    if a != [] && b != [] && a[0] == b[0] {
      NotAfterTotal(a[1..], b[1..]);
    }
  }

  lemma {:induction false} NotAfterAntisymmetric(a: string, b: string)
    requires NotAfter(a, b) && NotAfter(b, a)
    ensures a == b
  {
    if a != [] && b != [] {
      NotAfterAntisymmetric(a[1..], b[1..]);
      assert a == [a[0]] + a[1..] && b == [b[0]] + b[1..];
    }
  }

  lemma {:induction false} NotAfterTransitive(a: string, b: string, c: string)
    requires NotAfter(a, b) && NotAfter(b, c)
    ensures NotAfter(a, c)
  {
    if a != [] && a[0] == b[0] && b[0] == c[0] {
      NotAfterTransitive(a[1..], b[1..], c[1..]);
    }
  }

  predicate Sorted(s: seq<string>) {
    forall i, j :: 0 <= i < j < |s| ==> NotAfter(s[i], s[j])
  }

  /** A name not after any name of a sorted list can go in front of it. */
  lemma ConsSorted(h: string, t: seq<string>)
    requires Sorted(t)
    requires forall y :: y in t ==> NotAfter(h, y)
    ensures Sorted([h] + t)
  {
    var r := [h] + t;
    forall i, j | 0 <= i < j < |r|
      ensures NotAfter(r[i], r[j])
    {
      assert r[j] == t[j - 1];
      if i > 0 {
        assert r[i] == t[i - 1];
      } else {
        assert t[j - 1] in t;
      }
    }
  }

  /** Inserting into a sorted list keeps it sorted and adds exactly `x`. */
  function Insert(x: string, s: seq<string>): (r: seq<string>)
    requires Sorted(s)
    ensures Sorted(r)
    ensures multiset(r) == multiset(s) + multiset{x}
  {
    if s == [] then [x]
    else if NotAfter(x, s[0]) then
      assert forall y :: y in s ==> NotAfter(x, y) by {
        forall y | y in s ensures NotAfter(x, y) {
          var j :| 0 <= j < |s| && s[j] == y;
          if j > 0 { NotAfterTransitive(x, s[0], s[j]); }
        }
      }
      ConsSorted(x, s);
      [x] + s
    else
      NotAfterTotal(x, s[0]);
      var rest := Insert(x, s[1..]);
      assert s == [s[0]] + s[1..];
      assert forall y :: y in rest ==> NotAfter(s[0], y) by {
        forall y | y in rest ensures NotAfter(s[0], y) {
          assert y in multiset(rest);
          if y != x {
            assert y in multiset(s[1..]);
            var j :| 0 <= j < |s[1..]| && s[1..][j] == y;
            assert s[j + 1] == y;
          }
        }
      }
      ConsSorted(s[0], rest);
      assert multiset([s[0]] + rest) == multiset{s[0]} + multiset(rest);
      [s[0]] + rest
  }

  /** `sorted(names)`: a sorted permutation. */
  function SortNames(s: seq<string>): (r: seq<string>)
    ensures Sorted(r)
    ensures multiset(r) == multiset(s)
  {
    if s == [] then []
    else
      assert s == [s[0]] + s[1..];
      Insert(s[0], SortNames(s[1..]))
  }

  /**
   * Any two sorted arrangements of the same names are the same list, so
   * whatever algorithm `list.sort()` runs, its result is `SortNames`'s.
   */
  lemma {:induction false} SortedUnique(a: seq<string>, b: seq<string>)
    requires Sorted(a) && Sorted(b) && multiset(a) == multiset(b)
    ensures a == b
  {
    if a != [] {
      assert a[0] in multiset(b);
      assert b != [] && b[0] in multiset(a);
      HeadComesFirst(b, a[0]);
      HeadComesFirst(a, b[0]);
      NotAfterAntisymmetric(a[0], b[0]);
      TailOf(a);
      TailOf(b);
      SortedUnique(a[1..], b[1..]);
    }
  }

  /** The head of a sorted list comes before every element of it. */
  lemma HeadComesFirst(s: seq<string>, x: string)
    requires Sorted(s) && x in s
    ensures NotAfter(s[0], x)
  {
    var i :| 0 <= i < |s| && s[i] == x;
    if i == 0 { NotAfterReflexive(x); }
  }

  lemma TailOf(s: seq<string>)
    requires Sorted(s) && s != []
    ensures Sorted(s[1..])
    ensures s == [s[0]] + s[1..]
    ensures multiset(s[1..]) == multiset(s) - multiset{s[0]}
  {
    assert s == [s[0]] + s[1..];
  }

  /**
   * `load_images`: exactly the listed names that end, ignoring case, in
   * `.jpg`, `.jpeg`, `.png` or `.gif`, each as often as listed, sorted.
   */
  function LoadImages(listing: seq<string>): (images: seq<string>)
    ensures Sorted(images)
    ensures multiset(images) == multiset(ImageNames(listing))
    ensures forall f :: f in images <==> f in listing && IsImageName(f)
  {
    var r := SortNames(ImageNames(listing));
    assert forall f :: f in r <==> f in multiset(ImageNames(listing));
    r
  }

  // ---- Picking a caption out of a file's metadata ----

  /** A metadata value as JSON decodes it: text, or anything else with its Python truth value. */
  datatype MetaValue = Text(s: string) | NonText(truthy: bool)

  predicate Truthy(v: MetaValue) {
    match v
    case Text(s) => s != []
    case NonText(t) => t
  }

  const CaptionKeys: seq<string> :=
    ["ImageDescription", "Description", "XMP:Description", "IPTC:Caption-Abstract", "PNG:Comment"]

  /** `next((v for k, v in data.items() if k.startswith("Text:")), None)`. */
  function FirstTextKeyValue(data: seq<(string, MetaValue)>): (r: Option<MetaValue>)
    ensures r.None? <==> forall i :: 0 <= i < |data| ==> !StartsWith(data[i].0, "Text:")
    ensures r.Some? ==> exists i :: 0 <= i < |data| && StartsWith(data[i].0, "Text:") && data[i].1 == r.value
                                    && forall j :: 0 <= j < i ==> !StartsWith(data[j].0, "Text:")
  {
    if data == [] then None
    else if StartsWith(data[0].0, "Text:") then Some(data[0].1)
    else
      var r := FirstTextKeyValue(data[1..]);
      if r.Some? then
        var i :| 0 <= i < |data[1..]| && StartsWith(data[1..][i].0, "Text:") && data[1..][i].1 == r.value
                 && forall j :: 0 <= j < i ==> !StartsWith(data[1..][j].0, "Text:");
        assert data[i + 1] == data[1..][i];
        r
      else r
  }

  /** The candidates of the `or` chain, in priority order. */
  function Candidates(data: Dict<MetaValue>): seq<Option<MetaValue>> {
    seq(|CaptionKeys|, i requires 0 <= i < |CaptionKeys| => Get(data, CaptionKeys[i])) + [FirstTextKeyValue(data)]
  }

  /** `a or b or ... or ""`: the first truthy candidate, or the empty string. */
  function FirstTruthy(cands: seq<Option<MetaValue>>): (v: MetaValue)
    ensures v == Text("") || exists i :: 0 <= i < |cands| && cands[i] == Some(v) && Truthy(v)
  {
    if cands == [] then Text("")
    else if cands[0].Some? && Truthy(cands[0].value) then cands[0].value
    else
      var v := FirstTruthy(cands[1..]);
      if v != Text("") then
        var i :| 0 <= i < |cands[1..]| && cands[1..][i] == Some(v) && Truthy(v);
        assert cands[i + 1] == Some(v);
        v
      else v
  }

  /** The chain picks the candidate that is truthy when all before it are not. */
  lemma {:induction false} FirstTruthyPicks(cands: seq<Option<MetaValue>>, i: nat)
    requires i < |cands| && cands[i].Some? && Truthy(cands[i].value)
    requires forall j :: 0 <= j < i ==> cands[j].None? || !Truthy(cands[j].value)
    ensures FirstTruthy(cands) == cands[i].value
  {
    if i > 0 {
      FirstTruthyPicks(cands[1..], i - 1);
    }
  }

  /** Nothing truthy: the chain yields the empty string. */
  lemma {:induction false} FirstTruthyNone(cands: seq<Option<MetaValue>>)
    requires forall j :: 0 <= j < |cands| ==> cands[j].None? || !Truthy(cands[j].value)
    ensures FirstTruthy(cands) == Text("")
  {
    if cands != [] {
      FirstTruthyNone(cands[1..]);
    }
  }

  /** `description.strip()`, where a value that is not text makes the extractor give up with "". */
  function StripValue(v: MetaValue): (r: string)
    ensures IsStripped(r)
    ensures v.NonText? ==> r == ""
    ensures v.Text? ==> exists i :: 0 <= i <= |v.s| && StartsWith(v.s[i..], r)
  {
    match v
    case Text(s) =>
      var i := |s| - |TrimStart(s)|;
      assert StartsWith(s[i..], Strip(s));
      Strip(s)
    case NonText(_) => ""
  }

  /** The caption exiftool's record yields (the `or` chain of `extract_metadata`). */
  function CaptionOf(data: Dict<MetaValue>): (r: string)
    ensures IsStripped(r)
  {
    StripValue(FirstTruthy(Candidates(data)))
  }

  /**
   * When every earlier key of ImageDescription, Description,
   * XMP:Description, IPTC:Caption-Abstract, PNG:Comment is absent or falsy,
   * the first one holding non-empty text gives the caption, stripped. (An
   * earlier truthy value that is not text would be picked and make
   * `.strip()` raise instead.)
   */
  lemma CaptionPriority(data: Dict<MetaValue>, i: nat, s: string)
    requires i < |CaptionKeys| && Get(data, CaptionKeys[i]) == Some(Text(s)) && s != []
    requires forall j :: 0 <= j < i ==> Get(data, CaptionKeys[j]).None? || !Truthy(Get(data, CaptionKeys[j]).value)
    ensures CaptionOf(data) == Strip(s)
  {
    var cands := Candidates(data);
    assert cands[i] == Some(Text(s));
    assert forall j :: 0 <= j < i ==> cands[j] == Get(data, CaptionKeys[j]);
    FirstTruthyPicks(cands, i);
  }

  /**
   * Failing the five keys, the value of the first key that starts with
   * "Text:" is used, even when it is empty and a later "Text:" key is not.
   */
  lemma CaptionFromTextKey(data: Dict<MetaValue>)
    requires forall j :: 0 <= j < |CaptionKeys| ==> Get(data, CaptionKeys[j]).None? || !Truthy(Get(data, CaptionKeys[j]).value)
    ensures CaptionOf(data) == match FirstTextKeyValue(data)
                               case Some(Text(s)) => Strip(s)
                               case _ => ""
  {
    var cands := Candidates(data);
    assert forall j :: 0 <= j < |CaptionKeys| ==> cands[j] == Get(data, CaptionKeys[j]);
    assert cands[|CaptionKeys|] == FirstTextKeyValue(data);
    if FirstTextKeyValue(data).Some? && Truthy(FirstTextKeyValue(data).value) {
      FirstTruthyPicks(cands, |CaptionKeys|);
    } else {
      FirstTruthyNone(cands);
    }
  }

  /** `Path(name).suffix`: from the last dot, unless that dot is the first or the last character. */
  function Suffix(name: string): (r: string)
    ensures r == [] || (2 <= |r| < |name| && r[0] == '.' && EndsWith(name, r) && '.' !in r[1..])
    ensures r != [] <==> HasInnerLastDot(name)
  {
    var i := LastIndexOf(name, '.');
    SuffixRule(name);
    if 0 < i < |name| - 1 then name[i..] else ""
  }

  /** Some dot of `name`, neither its first nor its last character, has no dot after it. */
  predicate HasInnerLastDot(name: string) {
    exists d :: 0 < d < |name| - 1 && name[d] == '.' && '.' !in name[d + 1..]
  }

  /** The last dot is neither the first nor the last character exactly when `HasInnerLastDot` holds. */
  lemma SuffixRule(name: string)
    ensures var i := LastIndexOf(name, '.');
            (0 < i < |name| - 1) <==> HasInnerLastDot(name)
  {
    var i := LastIndexOf(name, '.');
    if 0 < i < |name| - 1 {
      assert name[i] == '.' && '.' !in name[i + 1..];
    }
    if exists d :: 0 < d < |name| - 1 && name[d] == '.' && '.' !in name[d + 1..] {
      var d :| 0 < d < |name| - 1 && name[d] == '.' && '.' !in name[d + 1..];
      forall k | d < k < |name|
        ensures name[k] != '.'
      {
        assert name[k] == name[d + 1..][k - d - 1];
      }
      LastIndexOfAt(name, '.', d);
    }
  }

  /** What opening the file with Pillow gave: nothing, or its `info` dictionary. */
  datatype PillowRead = NotOpened | Opened(info: Dict<MetaValue>)

  /** What running `exiftool -j` gave: a failure, or stdout decoded as a list of records (None: it did not decode so). */
  datatype ExifRun = ExifFailed | ExifDone(records: Option<seq<Dict<MetaValue>>>)

  /**
   * The first `try` of `extract_metadata` for a PNG that Pillow opened:
   * `info.get("Description") or info.get("description")`, stripped when it
   * is non-empty text; `None` when it is absent or falsy (the exiftool path
   * follows) or when it is not text (`.strip()` raises, which is caught).
   */
  function OwnDescription(info: Dict<MetaValue>): (r: Option<string>)
    ensures r.Some? ==> IsStripped(r.value)
  {
    var d := Get(info, "Description");
    var desc := if d.Some? && Truthy(d.value) then d else Get(info, "description");
    if desc.Some? && Truthy(desc.value) && desc.value.Text? then Some(Strip(desc.value.s)) else None
  }

  /**
   * `extract_metadata` for a file called `name`: a PNG file's own
   * Description (or description), when it is non-empty text; otherwise the
   * caption of exiftool's first record; "" whenever a step fails.
   */
  function ExtractMetadata(name: string, pillow: PillowRead, exif: ExifRun): (r: string)
    ensures IsStripped(r)
  {
    var fromPillow :=
      if Lower(Suffix(name)) == ".png" && pillow.Opened? then OwnDescription(pillow.info) else None;
    if fromPillow.Some? then fromPillow.value
    else
      match exif
      case ExifFailed => ""
      case ExifDone(None) => ""
      case ExifDone(Some(records)) => if records == [] then "" else CaptionOf(records[0])
  }

  /** A PNG's own non-empty text Description is used, whatever exiftool would say. */
  lemma PngDescriptionWins(name: string, info: Dict<MetaValue>, exif: ExifRun, s: string)
    requires Lower(Suffix(name)) == ".png"
    requires Get(info, "Description") == Some(Text(s)) && s != []
    ensures ExtractMetadata(name, Opened(info), exif) == Strip(s)
  {
    assert Truthy(Text(s));
    assert OwnDescription(info) == Some(Strip(s));
  }

  /** Lacking a usable Description, a PNG falls back to its lower-case "description". */
  lemma PngLowerCaseDescription(name: string, info: Dict<MetaValue>, exif: ExifRun, s: string)
    requires Lower(Suffix(name)) == ".png"
    requires Get(info, "Description").None? || !Truthy(Get(info, "Description").value)
    requires Get(info, "description") == Some(Text(s)) && s != []
    ensures ExtractMetadata(name, Opened(info), exif) == Strip(s)
  {
    assert OwnDescription(info) == Some(Strip(s));
  }

  /**
   * A PNG whose picked value (Description if truthy, else description) is
   * absent, falsy or not text has no own description, so exiftool decides.
   */
  lemma NoOwnDescription(info: Dict<MetaValue>)
    ensures var d := Get(info, "Description");
            var picked := if d.Some? && Truthy(d.value) then d else Get(info, "description");
            OwnDescription(info).None? <==> picked.None? || !Truthy(picked.value) || !picked.value.Text?
  {
  }

  /**
   * Any other file, a PNG Pillow could not open, or a PNG without its own
   * usable description is captioned from exiftool's first record.
   */
  lemma ExifCaptionOtherwise(name: string, pillow: PillowRead, records: seq<Dict<MetaValue>>)
    requires Lower(Suffix(name)) != ".png" || pillow.NotOpened? || OwnDescription(pillow.info).None?
    ensures ExtractMetadata(name, pillow, ExifDone(Some(records))) == if records == [] then "" else CaptionOf(records[0])
    ensures ExtractMetadata(name, pillow, ExifFailed) == ""
    ensures ExtractMetadata(name, pillow, ExifDone(None)) == ""
  {
  }

  /**
   * A truthy Description that is not text makes `.strip()` raise: the
   * lower-case "description" is never looked at and exiftool decides.
   */
  lemma NonTextDescriptionFallsThrough(name: string, info: Dict<MetaValue>, records: seq<Dict<MetaValue>>)
    requires Lower(Suffix(name)) == ".png"
    requires Get(info, "Description") == Some(NonText(true))
    ensures ExtractMetadata(name, Opened(info), ExifDone(Some(records))) == if records == [] then "" else CaptionOf(records[0])
  {
    NoOwnDescription(info);
    ExifCaptionOtherwise(name, Opened(info), records);
  }
}
