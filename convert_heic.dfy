/**
 * `convert-existing-heic.js`: the migration pass run once over the stored
 * records, converting HEIC photos to JPEG.
 */
module HeicMigration {
  import opened Maybe
  import opened MediaStore
  import Migration
  import GalleryView

  /** Run the script: the shared pass with `.heic` files converted to `.jpg`. */
  method ConvertExistingHeic(lib: Library, outcome: nat -> Outcome) returns (ran: bool)
    modifies lib
    ensures old(lib.document).None? ==>
      !ran && lib.document == old(lib.document) && lib.uploads == old(lib.uploads) && lib.saves == old(lib.saves)
    ensures old(lib.document).Some? ==>
      var s := Migration.Pass(HeicToJpg, old(lib.document).value, old(lib.uploads), outcome);
      ran && lib.document == Some(s.records) && lib.uploads == s.dir && lib.saves == old(lib.saves) + 1
  {
    ran := Migration.Run(lib, HeicToJpg, outcome);
  }

  /**
   * A record the HEIC pass changed: its stored name lost its last five
   * characters (".heic" in any case) to ".jpg", its description is kept, the
   * JPEG exists, the HEIC file is gone, and the gallery still shows it as an
   * image.
   */
  lemma {:induction false} HeicRecordConverted(records: seq<MediaRecord>, dir: set<string>, outcome: nat -> Outcome, k: nat)
    requires k < |records|
    requires Migration.Pass(HeicToJpg, records, dir, outcome).records[k] != records[k]
    ensures var s := Migration.Pass(HeicToJpg, records, dir, outcome);
      var name := records[k].filename;
      && |name| > 5
      && s.records[k] == MediaRecord(name[..|name| - 5] + ".jpg", records[k].description)
      && s.records[k].filename in s.dir && name !in s.dir
      && GalleryView.TypeOf(s.records[k].filename) == GalleryView.Image
  {
    KnownConversionsValid();
    Migration.RenamedRecord(HeicToJpg, records, dir, outcome, k);
    Migration.RenamedFilesOnDisk(HeicToJpg, records, dir, outcome, k);
    GalleryView.VideoIff(Migration.Pass(HeicToJpg, records, dir, outcome).records[k].filename);
  }
}
