/**
 * `convert-existing-mov.js`: the migration pass run once over the stored
 * records, converting QuickTime videos to MP4 so that the gallery plays them.
 */
module MovMigration {
  import opened Maybe
  import opened MediaStore
  import Migration
  import GalleryView

  /** Run the script: the shared pass with `.mov` files converted to `.mp4`. */
  method ConvertExistingMov(lib: Library, outcome: nat -> Outcome) returns (ran: bool)
    modifies lib
    ensures old(lib.document).None? ==>
      !ran && lib.document == old(lib.document) && lib.uploads == old(lib.uploads) && lib.saves == old(lib.saves)
    ensures old(lib.document).Some? ==>
      var s := Migration.Pass(MovToMp4, old(lib.document).value, old(lib.uploads), outcome);
      ran && lib.document == Some(s.records) && lib.uploads == s.dir && lib.saves == old(lib.saves) + 1
  {
    ran := Migration.Run(lib, MovToMp4, outcome);
  }

  /**
   * A record the MOV pass changed: its stored name lost its last four
   * characters (".mov" in any case) to ".mp4", its description is kept, the
   * MP4 exists, the MOV file is gone, and the gallery, which showed the
   * record as an image before, now shows it as a video.
   */
  lemma {:induction false} MovRecordConverted(records: seq<MediaRecord>, dir: set<string>, outcome: nat -> Outcome, k: nat)
    requires k < |records|
    requires Migration.Pass(MovToMp4, records, dir, outcome).records[k] != records[k]
    ensures var s := Migration.Pass(MovToMp4, records, dir, outcome);
      var name := records[k].filename;
      && |name| > 4
      && s.records[k] == MediaRecord(name[..|name| - 4] + ".mp4", records[k].description)
      && s.records[k].filename in s.dir && name !in s.dir
      && GalleryView.TypeOf(name) == GalleryView.Image
      && GalleryView.TypeOf(s.records[k].filename) == GalleryView.Video
  {
    KnownConversionsValid();
    Migration.RenamedRecord(MovToMp4, records, dir, outcome, k);
    Migration.RenamedFilesOnDisk(MovToMp4, records, dir, outcome, k);
    GalleryView.MovIsImageMp4IsVideo(records[k].filename, Migration.Pass(MovToMp4, records, dir, outcome).records[k].filename);
  }
}
