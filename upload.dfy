/**
 * The `POST /upload` handler: each uploaded file, already stored by the
 * upload middleware under `<Date.now()>-<originalname>`, is converted from
 * HEIC to JPEG when its original name says HEIC, and gets one record, in
 * upload order, with the description sent at the same index.
 */
module Upload {
  import opened Maybe
  import opened Paths
  import opened MediaStore
  import opened Fold

  /** `req.body.description`: absent, one form value, or several. */
  datatype DescriptionField = Missing | Single(text: string) | Many(texts: seq<string>)

  /** A file as the upload middleware hands it over: the client's name and the stored name. */
  datatype UploadedFile = UploadedFile(originalname: string, filename: string)

  /** The number a string of decimal digits denotes, read left to right. */
  function DigitsValue(s: string): int {
    if s == [] then 0 else DigitsValue(s[..|s| - 1]) * 10 + (s[|s| - 1] as int - '0' as int)
  }

  /**
   * The decimal digits of `n`, as `Date.now() + "-"` writes the timestamp:
   * digits that denote `n`, with no leading zero unless `n` is 0.
   */
  function Decimal(n: nat): (s: string)
    ensures |s| > 0 && forall i :: 0 <= i < |s| ==> '0' <= s[i] <= '9'
    ensures DigitsValue(s) == n
    ensures s[0] != '0' || s == "0"
  {
    var digit := ('0' as int + n % 10) as char;
    if n < 10 then [digit] else
      var high := Decimal(n / 10);
      assert (high + [digit])[..|high|] == high;
      high + [digit]
  }

  /** The name the disk storage gives a file uploaded at time `now`. */
  function StoredName(now: nat, originalname: string): string {
    Decimal(now) + "-" + originalname
  }

  /**
   * The description recorded for the file at index `i`: the value at the same
   * index when several were sent, the one value for the first file, and ""
   * for every other file and for an empty value.
   */
  function Description(d: DescriptionField, i: nat): string {
    match d
    case Missing => ""
    case Single(text) => if i == 0 then text else ""
    case Many(texts) => if i < |texts| then texts[i] else ""
  }

  /** `if (!Array.isArray(descriptions)) descriptions = [descriptions]`; an absent field becomes `[undefined]`. */
  function Normalise(d: DescriptionField): (descriptions: seq<Option<string>>)
    ensures forall i: nat :: Pick(descriptions, i) == Description(d, i)
  {
    match d
    case Many(texts) => seq(|texts|, j requires 0 <= j < |texts| => Some(texts[j]))
    case Single(text) => [Some(text)]
    case Missing => [None]
  }

  /** `descriptions[i] || ''`: a missing entry, past the end or undefined, gives "". */
  function Pick(descriptions: seq<Option<string>>, i: nat): string {
    if i < |descriptions| && descriptions[i].Some? then descriptions[i].value else ""
  }

  /**
   * One iteration for `file`: the name it is recorded under and the uploads
   * directory afterwards. An original name with extension .heic triggers a
   * conversion of the stored file, which fails when that file cannot be read;
   * the record takes the JPEG's name only when writing it and removing the
   * HEIC file both succeed.
   */
  function Store(dir: set<string>, file: UploadedFile, o: Outcome): (r: (string, set<string>))
    ensures r.0 == file.filename || r.0 == TargetName(HeicToJpg, file.filename)
    ensures !HasExt(file.originalname, ".heic") ==> r == (file.filename, dir)
  {
    if HasExt(file.originalname, ".heic") then
      var jpg := TargetName(HeicToJpg, file.filename);
      var o' := if file.filename in dir then o else Failed;
      (if o' == Converted then jpg else file.filename, AfterConversion(dir, file.filename, jpg, o'))
    else
      (file.filename, dir)
  }

  /** The records appended so far and the uploads directory at that point. */
  datatype Batch = Batch(records: seq<MediaRecord>, dir: set<string>)

  /** The loop body for file `i`: its record, with the description at index `i`, and the directory afterwards. */
  function UploadIteration(d: DescriptionField, outcome: nat -> Outcome): (set<string>, UploadedFile, nat) -> (MediaRecord, set<string>) {
    (dir: set<string>, file: UploadedFile, i: nat) =>
      var stored := Store(dir, file, outcome(i));
      (MediaRecord(stored.0, Description(d, i)), stored.1)
  }

  /** The state after the loop has handled the first `n` files: one record per file. */
  function UploadVisit(dir: set<string>, files: seq<UploadedFile>, d: DescriptionField, outcome: nat -> Outcome, n: nat): (b: Batch)
    requires n <= |files|
    ensures |b.records| == n
  {
    var r := Scan(UploadIteration(d, outcome), files, dir, n);
    Batch(r.0, r.1)
  }

  /** The whole upload. */
  function UploadPass(dir: set<string>, files: seq<UploadedFile>, d: DescriptionField, outcome: nat -> Outcome): Batch {
    UploadVisit(dir, files, d, outcome, |files|)
  }

  /** The loop's next iteration, as one more record on top of the state so far. */
  lemma {:induction false} UploadNext(dir: set<string>, files: seq<UploadedFile>, d: DescriptionField, outcome: nat -> Outcome, i: nat)
    requires i < |files|
    ensures var prev := UploadVisit(dir, files, d, outcome, i);
      var next := Store(prev.dir, files[i], outcome(i));
      UploadVisit(dir, files, d, outcome, i + 1) == Batch(prev.records + [MediaRecord(next.0, Description(d, i))], next.1)
  {
  }

  /**
   * The record for file `k`: the JPEG's name exactly when the original name
   * has extension .heic, the stored file is there when the loop reaches it,
   * and the conversion succeeds; the stored name otherwise.
   */
  lemma {:induction false} UploadRecordAt(dir: set<string>, files: seq<UploadedFile>, d: DescriptionField, outcome: nat -> Outcome, k: nat)
    requires k < |files|
    ensures var before := UploadVisit(dir, files, d, outcome, k).dir;
      var f := files[k];
      UploadPass(dir, files, d, outcome).records[k]
        == MediaRecord(
             if HasExt(f.originalname, ".heic") && f.filename in before && outcome(k) == Converted
             then TargetName(HeicToJpg, f.filename) else f.filename,
             Description(d, k))
  {
    var before := UploadVisit(dir, files, d, outcome, k).dir;
    ScanAt(UploadIteration(d, outcome), files, dir, k);
    assert UploadIteration(d, outcome)(before, files[k], k).0 == MediaRecord(Store(before, files[k], outcome(k)).0, Description(d, k));
  }

  /**
   * A HEIC photo uploaded at time `now` whose conversion succeeds is
   * recorded as `<now>-<name without .heic>.jpg`, a name with extension
   * .jpg; the JPEG is in the uploads directory and the HEIC file is not.
   */
  lemma {:induction false} HeicUploadStoredAsJpg(dir: set<string>, now: nat, name: string)
    requires HasExt(name, ".heic") && !EndsInSlash(name) && StoredName(now, name) in dir
    ensures var r := Store(dir, UploadedFile(name, StoredName(now, name)), Converted);
      && |name| > 5
      && r.0 == Decimal(now) + "-" + name[..|name| - 5] + ".jpg"
      && HasExt(r.0, ".jpg")
      && r.0 in r.1 && StoredName(now, name) !in r.1
  {
    KnownConversionsValid();
    EndsWithExt(name, ".heic");
    var prefix := Decimal(now) + "-";
    StoredHeicTarget(prefix, name);
    StemJpgHasExt(prefix, name);
    assert |prefix + name[..|name| - 5] + ".jpg"| != |StoredName(now, name)|;
  }

  /**
   * The timestamp prefix does not change whether a name matches `/\.heic$/i`:
   * the '-' that ends it cannot be part of a match.
   */
  lemma {:induction false} StoredNameEndsWith(now: nat, name: string)
    ensures EndsWithCi(StoredName(now, name), ".heic") <==> EndsWithCi(name, ".heic")
  {
    var prefix := Decimal(now) + "-";
    assert StoredName(now, name) == prefix + name;
    assert forall j :: 0 <= j < |".heic"| ==> LowerChar(".heic"[j]) != '-';
    EndsWithCiAfterDash(prefix, name, ".heic");
  }

  /** Converting the stored name of a HEIC upload swaps its last five characters for ".jpg". */
  lemma {:induction false} StoredHeicTarget(prefix: string, name: string)
    requires EndsWithCi(name, ".heic")
    ensures |name| >= 5 && TargetName(HeicToJpg, prefix + name) == prefix + name[..|name| - 5] + ".jpg"
  {
    EndsWithCiAfterPrefix(prefix, name, ".heic");
    assert (prefix + name)[..|prefix + name| - 5] == prefix + name[..|name| - 5];
  }

  /** The JPEG name of a HEIC upload has extension .jpg when the HEIC name's stem does not end in '/'. */
  lemma {:induction false} StemJpgHasExt(prefix: string, name: string)
    requires |name| > 5 && name[|name| - 6] != '/'
    ensures HasExt(prefix + name[..|name| - 5] + ".jpg", ".jpg")
  {
    var stem := prefix + name[..|name| - 5];
    assert stem[|stem| - 1] == name[|name| - 6];
    assert ValidExt(".jpg");
    AppendExt(stem, ".jpg");
  }

  /**
   * A HEIC photo whose conversion fails, or whose stored file is missing,
   * keeps its stored name, and its HEIC file, if present, stays.
   */
  lemma {:induction false} HeicUploadKeptOnFailure(dir: set<string>, file: UploadedFile, o: Outcome)
    requires HasExt(file.originalname, ".heic") && (o != Converted || file.filename !in dir)
    ensures var r := Store(dir, file, o);
      r.0 == file.filename && dir <= r.1
  {
  }

  /**
   * `POST /upload`: load the stored records (an unreadable document counts
   * as empty), normalise the descriptions to a list, handle the files in
   * order, appending one record each, and save the list once.
   */
  method Handle(lib: Library, files: seq<UploadedFile>, d: DescriptionField, outcome: nat -> Outcome)
    modifies lib
    ensures var b := UploadPass(old(lib.uploads), files, d, outcome);
      && lib.document == Some(Load(old(lib.document)) + b.records)
      && lib.uploads == b.dir
      && lib.saves == old(lib.saves) + 1
  {
    var descriptions := Normalise(d);
    var metadata := Load(lib.document);
    ghost var loaded := metadata;
    for i := 0 to |files|
      invariant metadata == loaded + UploadVisit(old(lib.uploads), files, d, outcome, i).records
      invariant lib.uploads == UploadVisit(old(lib.uploads), files, d, outcome, i).dir
      invariant lib.document == old(lib.document) && lib.saves == old(lib.saves)
    {
      ghost var prev := UploadVisit(old(lib.uploads), files, d, outcome, i);
      var finalFilename := StoreFile(lib, files[i], outcome(i));
      var description := Pick(descriptions, i);
      UploadNext(old(lib.uploads), files, d, outcome, i);
      metadata := metadata + [MediaRecord(finalFilename, description)];
    }
    lib.document := Some(metadata);
    lib.saves := lib.saves + 1;
  }

  /**
   * The conversion attempt for one uploaded file: read the stored file,
   * write the JPEG, remove the HEIC file, and only then switch the name.
   */
  method StoreFile(lib: Library, file: UploadedFile, o: Outcome) returns (finalFilename: string)
    modifies lib`uploads
    ensures (finalFilename, lib.uploads) == Store(old(lib.uploads), file, o)
  {
    finalFilename := file.filename;
    if HasExt(file.originalname, ".heic") {
      var jpg := TargetName(HeicToJpg, file.filename);
      if file.filename in lib.uploads {
        match o
        case Failed =>
        case RemoveFailed =>
          lib.uploads := lib.uploads + {jpg};
        case Converted =>
          lib.uploads := lib.uploads + {jpg};
          lib.uploads := lib.uploads - {file.filename};
          finalFilename := jpg;
      }
    }
  }
}
