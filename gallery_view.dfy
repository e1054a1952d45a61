/**
 * The gallery page (`GET /`): every stored record is shown in stored order,
 * tagged as a video when its lower-cased extension matches
 * `/\.(mp4|webm|ogg)$/i` and as an image otherwise.
 */
module GalleryView {
  import opened Maybe
  import opened Paths
  import opened MediaStore

  datatype MediaType = Image | Video

  /** A record as the page template receives it: the stored fields plus `type`. */
  datatype GalleryItem = GalleryItem(filename: string, description: string, kind: MediaType)

  /** `/\.(mp4|webm|ogg)$/i.test(ext)`. */
  predicate IsVideoExt(ext: string) {
    EndsWithCi(ext, ".mp4") || EndsWithCi(ext, ".webm") || EndsWithCi(ext, ".ogg")
  }

  /** The `type` of a record with this file name. */
  function TypeOf(filename: string): MediaType {
    if IsVideoExt(Lower(Extname(filename))) then Video else Image
  }

  /**
   * `metadata.map(entry => ({...entry, type}))`: one item per record, in the
   * same order, with the record's fields and its type.
   */
  function View(records: seq<MediaRecord>): (items: seq<GalleryItem>)
    ensures |items| == |records|
    ensures forall i {:trigger items[i]} :: 0 <= i < |records| ==>
      items[i].filename == records[i].filename && items[i].description == records[i].description
      && items[i].kind == TypeOf(records[i].filename)
  {
    if records == [] then []
    else [GalleryItem(records[0].filename, records[0].description, TypeOf(records[0].filename))] + View(records[1..])
  }

  /** The page for the stored document; an absent or unreadable document shows an empty gallery. */
  function Gallery(document: Option<seq<MediaRecord>>): (items: seq<GalleryItem>)
    ensures document.None? ==> items == []
    ensures document.Some? ==> |items| == |document.value|
  {
    View(Load(document))
  }

  /** A case-folded extension is empty or one dot followed by dot-free lower-case text. */
  lemma {:induction false} FoldedExtShape(f: string)
    ensures var x := Lower(Extname(f));
      && (x == [] || (x[0] == '.' && forall j :: 0 < j < |x| ==> x[j] != '.'))
      && forall j :: 0 <= j < |x| ==> LowerChar(x[j]) == x[j]
  {
    var e := Extname(f);
    var x := Lower(e);
    ExtnameShape(f);
    forall j | 0 <= j < |x|
      ensures (x[j] == '.' <==> e[j] == '.') && LowerChar(x[j]) == x[j]
    {
      LowerCharKeepsPunctuation(e[j]);
      LowerCharIdempotent(e[j]);
    }
  }

  /**
   * For a folded extension `x` (empty, or one leading dot), the anchored
   * pattern for an extension constant `v` matches exactly when `x` is `v`.
   */
  lemma {:induction false} SuffixMatchIsWhole(x: string, v: string)
    requires x == [] || (x[0] == '.' && forall j :: 0 < j < |x| ==> x[j] != '.')
    requires forall j :: 0 <= j < |x| ==> LowerChar(x[j]) == x[j]
    requires ValidExt(v)
    ensures EndsWithCi(x, v) <==> x == v
  {
    LowerOfExt(v);
    if EndsWithCi(x, v) {
      var m := |x| - |v|;
      assert Lower(x[m..])[0] == v[0];
      LowerCharKeepsPunctuation(x[m]);
      assert m == 0;
      assert x[m..] == x;
      LowerOfLower(x);
    }
    if x == v {
      assert x[|x| - |v|..] == x;
    }
  }

  /** A record is shown as a video exactly when its extension is .mp4, .webm or .ogg, in any case. */
  lemma {:induction false} VideoIff(f: string)
    ensures TypeOf(f) == Video <==> HasExt(f, ".mp4") || HasExt(f, ".webm") || HasExt(f, ".ogg")
  {
    var x := Lower(Extname(f));
    FoldedExtShape(f);
    assert ValidExt(".mp4") && ValidExt(".webm") && ValidExt(".ogg");
    SuffixMatchIsWhole(x, ".mp4");
    SuffixMatchIsWhole(x, ".webm");
    SuffixMatchIsWhole(x, ".ogg");
  }

  /** A .mov file, the format phones record in, is shown as an image; an .mp4 file as a video. */
  lemma MovIsImageMp4IsVideo(f: string, g: string)
    requires HasExt(f, ".mov") && HasExt(g, ".mp4")
    ensures TypeOf(f) == Image && TypeOf(g) == Video
  {
    VideoIff(f);
    VideoIff(g);
  }
}
