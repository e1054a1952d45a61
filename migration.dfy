/**
 * The one-shot batch pass shared by the two migration scripts: walk the
 * records of `media.json` in order, convert every record whose extension is
 * the legacy one and whose file still exists, rename the record on success,
 * carry on after a failure, and write the list back once at the end.
 */
module Migration {
  import opened Maybe
  import opened Paths
  import opened MediaStore
  import opened Fold

  /** The loop body looks at a record only when its extension is the legacy one and its file exists. */
  predicate Eligible(c: Conversion, dir: set<string>, item: MediaRecord) {
    HasExt(item.filename, c.legacy) && item.filename in dir
  }

  /** One iteration of the loop body: the record afterwards and the directory afterwards. */
  function Step(c: Conversion, dir: set<string>, item: MediaRecord, o: Outcome): (r: (MediaRecord, set<string>))
    ensures r.0.description == item.description
    ensures r.0 == item || r.0 == item.(filename := TargetName(c, item.filename))
    ensures !Eligible(c, dir, item) ==> r == (item, dir)
  {
    if Eligible(c, dir, item) then
      var dst := TargetName(c, item.filename);
      (if o == Converted then item.(filename := dst) else item, AfterConversion(dir, item.filename, dst, o))
    else
      (item, dir)
  }

  /** The records visited so far, as the loop has left them, and the directory at that point. */
  datatype PassState = PassState(records: seq<MediaRecord>, dir: set<string>)

  /** The loop body for record `i`, when converting it would end with `outcome(i)`. */
  function Iteration(c: Conversion, outcome: nat -> Outcome): (set<string>, MediaRecord, nat) -> (MediaRecord, set<string>) {
    (d: set<string>, item: MediaRecord, i: nat) => Step(c, d, item, outcome(i))
  }

  /**
   * The state after the loop has visited the first `n` records; `outcome(k)`
   * is how converting record `k` ends, if it is attempted.
   */
  function Visit(c: Conversion, records: seq<MediaRecord>, dir: set<string>, outcome: nat -> Outcome, n: nat): (s: PassState)
    requires n <= |records|
    ensures |s.records| == n
  {
    var r := Scan(Iteration(c, outcome), records, dir, n);
    PassState(r.0, r.1)
  }

  /** The loop's next iteration, as one step on top of the state so far. */
  lemma {:induction false} VisitNext(c: Conversion, records: seq<MediaRecord>, dir: set<string>, outcome: nat -> Outcome, i: nat)
    requires i < |records|
    ensures var prev := Visit(c, records, dir, outcome, i);
      var next := Step(c, prev.dir, records[i], outcome(i));
      Visit(c, records, dir, outcome, i + 1) == PassState(prev.records + [next.0], next.1)
  {
  }

  /** The whole pass. */
  function Pass(c: Conversion, records: seq<MediaRecord>, dir: set<string>, outcome: nat -> Outcome): PassState {
    Visit(c, records, dir, outcome, |records|)
  }

  /**
   * What the pass does to record `k`, whatever happened to the records before
   * it: it is renamed to its target name exactly when it is eligible in the
   * directory as the loop finds it and its conversion succeeds; otherwise it
   * is left as it was.
   */
  lemma {:induction false} PassRecordAt(c: Conversion, records: seq<MediaRecord>, dir: set<string>, outcome: nat -> Outcome, k: nat)
    requires k < |records|
    ensures var before := Visit(c, records, dir, outcome, k).dir;
      Pass(c, records, dir, outcome).records[k]
        == if Eligible(c, before, records[k]) && outcome(k) == Converted
           then records[k].(filename := TargetName(c, records[k].filename))
           else records[k]
  {
    var before := Visit(c, records, dir, outcome, k).dir;
    ScanAt(Iteration(c, outcome), records, dir, k);
    assert Iteration(c, outcome)(before, records[k], k) == Step(c, before, records[k], outcome(k));
  }

  /** The pass keeps the number and order of the records and every description; a record is kept or renamed to its target name. */
  lemma {:induction false} PassKeepsRecords(c: Conversion, records: seq<MediaRecord>, dir: set<string>, outcome: nat -> Outcome)
    ensures var s := Pass(c, records, dir, outcome).records;
      && |s| == |records|
      && forall k :: 0 <= k < |records| ==>
        && s[k].description == records[k].description
        && (s[k] == records[k] || s[k].filename == TargetName(c, records[k].filename))
  {
    var s := Pass(c, records, dir, outcome).records;
    forall k | 0 <= k < |records|
      ensures s[k].description == records[k].description
      ensures s[k] == records[k] || s[k].filename == TargetName(c, records[k].filename)
    {
      PassRecordAt(c, records, dir, outcome, k);
    }
  }

  /**
   * A record the pass changed had the legacy extension, kept its description,
   * and now carries its old name with the last |legacy| characters replaced by
   * the target extension, which is then its extension.
   */
  lemma {:induction false} RenamedRecord(c: Conversion, records: seq<MediaRecord>, dir: set<string>, outcome: nat -> Outcome, k: nat)
    requires ValidConversion(c) && k < |records|
    requires Pass(c, records, dir, outcome).records[k] != records[k]
    ensures var src := records[k].filename;
      var dst := Pass(c, records, dir, outcome).records[k].filename;
      && HasExt(src, c.legacy) && !EndsInSlash(src)
      && dst == src[..|src| - |c.legacy|] + c.target
      && HasExt(dst, c.target)
      && Pass(c, records, dir, outcome).records[k].description == records[k].description
  {
    PassRecordAt(c, records, dir, outcome, k);
    RenamedName(c, records[k].filename);
  }

  /** A legacy name that the suffix replacement changes does not end in '/' and gets the target extension. */
  lemma {:induction false} RenamedName(c: Conversion, name: string)
    requires ValidConversion(c) && HasExt(name, c.legacy) && TargetName(c, name) != name
    ensures !EndsInSlash(name)
    ensures TargetName(c, name) == name[..|name| - |c.legacy|] + c.target
    ensures HasExt(TargetName(c, name), c.target)
  {
    if EndsInSlash(name) {
      RenameKeepsSlashName(name, c.legacy, c.target);
      assert false;
    }
    RenameToTarget(name, c.legacy, c.target);
  }

  /** Two names whose extensions are different extension constants are different names. */
  lemma {:induction false} DistinctByExt(x: string, y: string, e1: string, e2: string)
    requires HasExt(x, e1) && HasExt(y, e2) && e1 != e2
    ensures x != y
  {
  }

  /** The name a legacy file is converted to is either the same name or has the target extension. */
  lemma {:induction false} TargetNameShape(c: Conversion, src: string)
    requires ValidConversion(c) && HasExt(src, c.legacy)
    ensures TargetName(c, src) == src || HasExt(TargetName(c, src), c.target)
  {
    if EndsInSlash(src) {
      RenameKeepsSlashName(src, c.legacy, c.target);
    } else {
      RenameToTarget(src, c.legacy, c.target);
    }
  }

  /** One loop iteration never removes a file with the target extension. */
  lemma {:induction false} StepKeepsTargets(c: Conversion, dir: set<string>, item: MediaRecord, o: Outcome, x: string)
    requires ValidConversion(c) && HasExt(x, c.target) && x in dir
    ensures x in Step(c, dir, item, o).1
  {
    if Eligible(c, dir, item) {
      DistinctByExt(x, item.filename, c.target, c.legacy);
    }
  }

  /** One loop iteration never creates a file with the legacy extension. */
  lemma {:induction false} StepAddsNoLegacy(c: Conversion, dir: set<string>, item: MediaRecord, o: Outcome, x: string)
    requires ValidConversion(c) && HasExt(x, c.legacy) && x !in dir
    ensures x !in Step(c, dir, item, o).1
  {
    if Eligible(c, dir, item) {
      var src := item.filename;
      TargetNameShape(c, src);
      if TargetName(c, src) != src {
        DistinctByExt(x, TargetName(c, src), c.legacy, c.target);
      }
    }
  }

  /** From any point of the pass to its end, no target-extension file is removed and no legacy file created. */
  lemma {:induction false} VisitFrame(c: Conversion, records: seq<MediaRecord>, dir: set<string>, outcome: nat -> Outcome, m: nat, n: nat, x: string)
    requires ValidConversion(c) && m <= n <= |records|
    ensures HasExt(x, c.target) && x in Visit(c, records, dir, outcome, m).dir ==> x in Visit(c, records, dir, outcome, n).dir
    ensures HasExt(x, c.legacy) && x !in Visit(c, records, dir, outcome, m).dir ==>
      x !in Visit(c, records, dir, outcome, n).dir
  {
    if m < n {
      VisitFrame(c, records, dir, outcome, m, n - 1, x);
      var prev := Visit(c, records, dir, outcome, n - 1);
      if HasExt(x, c.target) && x in Visit(c, records, dir, outcome, m).dir {
        StepKeepsTargets(c, prev.dir, records[n - 1], outcome(n - 1), x);
      }
      if HasExt(x, c.legacy) && x !in Visit(c, records, dir, outcome, m).dir {
        StepAddsNoLegacy(c, prev.dir, records[n - 1], outcome(n - 1), x);
      }
    }
  }

  /**
   * After the pass, every record it renamed points at a file that exists,
   * and the legacy file it was converted from is gone.
   */
  lemma {:induction false} RenamedFilesOnDisk(c: Conversion, records: seq<MediaRecord>, dir: set<string>, outcome: nat -> Outcome, k: nat)
    requires ValidConversion(c) && k < |records|
    requires Pass(c, records, dir, outcome).records[k] != records[k]
    ensures Pass(c, records, dir, outcome).records[k].filename in Pass(c, records, dir, outcome).dir
    ensures records[k].filename !in Pass(c, records, dir, outcome).dir
  {
    PassRecordAt(c, records, dir, outcome, k);
    var before := Visit(c, records, dir, outcome, k).dir;
    assert Eligible(c, before, records[k]) && outcome(k) == Converted && TargetName(c, records[k].filename) != records[k].filename;
    ConvertedSurvives(c, records, dir, outcome, k);
  }

  lemma {:induction false} ConvertedSurvives(c: Conversion, records: seq<MediaRecord>, dir: set<string>, outcome: nat -> Outcome, k: nat)
    requires ValidConversion(c) && k < |records|
    requires Eligible(c, Visit(c, records, dir, outcome, k).dir, records[k]) && outcome(k) == Converted
    requires TargetName(c, records[k].filename) != records[k].filename
    ensures TargetName(c, records[k].filename) in Pass(c, records, dir, outcome).dir
    ensures records[k].filename !in Pass(c, records, dir, outcome).dir
  {
    var before := Visit(c, records, dir, outcome, k).dir;
    var src := records[k].filename;
    var dst := TargetName(c, src);
    StepRenames(c, before, records[k], outcome(k));
    assert Visit(c, records, dir, outcome, k + 1).dir == Step(c, before, records[k], outcome(k)).1;
    RenamedName(c, src);
    VisitFrame(c, records, dir, outcome, k + 1, |records|, dst);
    VisitFrame(c, records, dir, outcome, k + 1, |records|, src);
  }

  /** A successful conversion that changes the name leaves the new file and removes the old one. */
  lemma {:induction false} StepRenames(c: Conversion, dir: set<string>, item: MediaRecord, o: Outcome)
    requires Eligible(c, dir, item) && o == Converted && TargetName(c, item.filename) != item.filename
    ensures TargetName(c, item.filename) in Step(c, dir, item, o).1
    ensures item.filename !in Step(c, dir, item, o).1
  {
  }

  /**
   * The body of the loop for the record at index `i`: when its extension is
   * the legacy one and its file exists, convert it (writing the new file,
   * then removing the old one) and, if both succeed, rename the record in
   * place. No other record changes.
   */
  method ConvertRecord(lib: Library, metadata: array<MediaRecord>, i: nat, c: Conversion, o: Outcome)
    requires i < metadata.Length
    modifies lib`uploads, metadata
    ensures var next := Step(c, old(lib.uploads), old(metadata[i]), o);
      metadata[i] == next.0 && lib.uploads == next.1
    ensures forall j :: 0 <= j < metadata.Length && j != i ==> metadata[j] == old(metadata[j])
  {
    var item := metadata[i];
    if HasExt(item.filename, c.legacy) && item.filename in lib.uploads {
      var dst := TargetName(c, item.filename);
      match o
      case Failed =>
      case RemoveFailed =>
        lib.uploads := lib.uploads + {dst};
      case Converted =>
        lib.uploads := lib.uploads + {dst};
        lib.uploads := lib.uploads - {item.filename};
        metadata[i] := item.(filename := dst);
    }
  }

  /**
   * The script: parse `media.json` (a missing or unparseable document makes
   * the script throw before anything happens), run the loop over the parsed
   * array, updating each record's filename in place and the uploads directory
   * as each conversion goes, then write the array back exactly once.
   */
  method Run(lib: Library, c: Conversion, outcome: nat -> Outcome) returns (ran: bool)
    modifies lib
    ensures old(lib.document).None? ==>
      !ran && lib.document == old(lib.document) && lib.uploads == old(lib.uploads) && lib.saves == old(lib.saves)
    ensures old(lib.document).Some? ==>
      var s := Pass(c, old(lib.document).value, old(lib.uploads), outcome);
      ran && lib.document == Some(s.records) && lib.uploads == s.dir && lib.saves == old(lib.saves) + 1
  {
    if lib.document.None? {
      return false;
    }
    var records := lib.document.value;
    var metadata := new MediaRecord[|records|](i requires 0 <= i < |records| => records[i]);
    var i := 0;
    while i < metadata.Length
      invariant 0 <= i <= metadata.Length == |records|
      invariant metadata[..i] == Visit(c, records, old(lib.uploads), outcome, i).records
      invariant forall j :: i <= j < metadata.Length ==> metadata[j] == records[j]
      invariant lib.uploads == Visit(c, records, old(lib.uploads), outcome, i).dir
      invariant lib.document == old(lib.document) && lib.saves == old(lib.saves)
    {
      ConvertRecord(lib, metadata, i, c, outcome(i));
      VisitNext(c, records, old(lib.uploads), outcome, i);
      assert metadata[..i + 1] == metadata[..i] + [metadata[i]];
      i := i + 1;
    }
    assert metadata[..] == metadata[..i];
    lib.document := Some(metadata[..]);
    lib.saves := lib.saves + 1;
    ran := true;
  }
}
