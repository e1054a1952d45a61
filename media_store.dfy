/**
 * The media metadata document (`media.json`, an ordered list of
 * `{filename, description}`), the flat uploads directory as a set of names,
 * and what one attempted format conversion does to that directory.
 */
module MediaStore {
  import opened Maybe
  import opened Paths

  datatype MediaRecord = MediaRecord(filename: string, description: string)

  /**
   * How one conversion attempt ended: the new file was written and the old
   * one removed; the attempt failed before anything was written; or the new
   * file was written but removing the old one threw.
   */
  datatype Outcome = Converted | Failed | RemoveFailed

  /** A legacy extension and the extension its files are converted to. */
  datatype Conversion = Conversion(legacy: string, target: string)

  const HeicToJpg := Conversion(".heic", ".jpg")
  const MovToMp4 := Conversion(".mov", ".mp4")

  /** Both extensions are extension constants, and they differ. */
  predicate ValidConversion(c: Conversion) {
    ValidExt(c.legacy) && ValidExt(c.target) && c.legacy != c.target
  }

  lemma {:induction false} KnownConversionsValid()
    ensures ValidConversion(HeicToJpg) && ValidConversion(MovToMp4)
  {
    assert ValidExt(".heic");
    assert ValidExt(".jpg");
    assert ValidExt(".mov");
    assert ValidExt(".mp4");
  }

  /** The name a converted file gets: `name.replace(/<legacy>$/i, <target>)`. */
  function TargetName(c: Conversion, name: string): string {
    ReplaceSuffixCi(name, c.legacy, c.target)
  }

  /**
   * The directory after converting `src` into `dst` with outcome `o`: the new
   * file appears unless the attempt failed, the old one disappears only on
   * full success, and no other name changes.
   */
  function AfterConversion(dir: set<string>, src: string, dst: string, o: Outcome): (r: set<string>)
    ensures o == Failed ==> r == dir
    ensures o != Failed ==> dst in r || (dst == src && o == Converted)
    ensures o == Converted ==> src !in r
    ensures o == RemoveFailed ==> dir <= r
    ensures forall n :: n != src && n != dst ==> (n in r <==> n in dir)
  {
    match o
    case Converted => (dir + {dst}) - {src}
    case RemoveFailed => dir + {dst}
    case Failed => dir
  }

  /** `loadMediaMetadata()`: the stored list, or `[]` when the document is absent or unreadable. */
  function Load(document: Option<seq<MediaRecord>>): seq<MediaRecord> {
    if document.Some? then document.value else []
  }

  /**
   * The files on disk: `document` is `media.json` (None when it is absent or
   * does not parse) and `uploads` the names in the uploads directory.
   */
  class Library {
    var document: Option<seq<MediaRecord>>
    var uploads: set<string>
    ghost var saves: nat

    constructor (document: Option<seq<MediaRecord>>, uploads: set<string>)
      ensures this.document == document && this.uploads == uploads && saves == 0
    {
      this.document := document;
      this.uploads := uploads;
      saves := 0;
    }
  }
}
